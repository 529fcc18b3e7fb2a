/** The CRC-32 of gnu-efi/lib/crc.c and the table headers it protects. */
module Crc {

  type byte = bv8

  const ALL_ONES: bv32 := 0xffff_ffff
  const POLY: bv32 := 0xEDB8_8320

  // ---------- words ----------

  function Xor(a: bv32, b: bv32): bv32 { a ^ b }

  function Half(c: bv32): bv32 { c >> 1 }

  predicate Odd(c: bv32) { c & 1 == 1 }

  lemma XorAssoc(a: bv32, b: bv32, c: bv32)
    ensures Xor(Xor(a, b), c) == Xor(a, Xor(b, c))
  {
  }

  lemma XorComm(a: bv32, b: bv32)
    ensures Xor(a, b) == Xor(b, a)
  {
  }

  lemma XorZero(a: bv32)
    ensures Xor(a, 0) == a && Xor(0, a) == a && Xor(a, a) == 0
  {
  }

  lemma XorEqual(a: bv32, b: bv32)
    ensures Xor(a, b) == 0 <==> a == b
  {
    hide Xor;
    XorAssoc(a, b, b);
    XorZero(a);
    XorZero(b);
  }

  /** (a ^ b) ^ (c ^ d) == (a ^ c) ^ (b ^ d) */
  lemma XorSwap(a: bv32, b: bv32, c: bv32, d: bv32)
    ensures Xor(Xor(a, b), Xor(c, d)) == Xor(Xor(a, c), Xor(b, d))
  {
    hide Xor;
    XorAssoc(a, b, Xor(c, d));
    XorAssoc(b, c, d);
    XorComm(b, c);
    XorAssoc(c, b, d);
    XorAssoc(a, c, Xor(b, d));
  }

  lemma HalfXor(a: bv32, b: bv32)
    ensures Half(Xor(a, b)) == Xor(Half(a), Half(b))
    ensures Odd(Xor(a, b)) <==> Odd(a) != Odd(b)
  {
  }

  // ---------- the register ----------

  /** One step of the reflected register. */
  function BitStep(c: bv32): bv32 {
    if Odd(c) then Xor(Half(c), POLY) else Half(c)
  }

  function Steps(c: bv32, n: nat): bv32
    decreases n
  {
    if n == 0 then c else Steps(BitStep(c), n - 1)
  }

  lemma BitStepLinear(a: bv32, b: bv32)
    ensures BitStep(Xor(a, b)) == Xor(BitStep(a), BitStep(b))
  {
    hide Xor, Half, Odd;
    HalfXor(a, b);
    var pa, pb := if Odd(a) then POLY else 0, if Odd(b) then POLY else 0;
    XorZero(Half(a));
    XorZero(Half(b));
    XorZero(Half(Xor(a, b)));
    XorZero(POLY);
    XorSwap(Half(a), pa, Half(b), pb);
    XorZero(0);
  }

  lemma {:induction false} StepsLinear(a: bv32, b: bv32, n: nat)
    ensures Steps(Xor(a, b), n) == Xor(Steps(a, n), Steps(b, n))
    decreases n
  {
    hide Xor, BitStep;
    if n > 0 {
      BitStepLinear(a, b);
      StepsLinear(BitStep(a), BitStep(b), n - 1);
    }
  }

  lemma {:induction false} StepsAdd(c: bv32, m: nat, n: nat)
    ensures Steps(Steps(c, m), n) == Steps(c, m + n)
    decreases m
  {
    hide BitStep;
    if m > 0 {
      StepsAdd(BitStep(c), m - 1, n);
    }
  }

  lemma BitStepZero(c: bv32)
    ensures BitStep(c) == 0 <==> c == 0
  {
  }

  /** Stepping loses nothing: the register is zero after n steps only if it was zero before. */
  lemma {:induction false} StepsZero(c: bv32, n: nat)
    ensures Steps(c, n) == 0 <==> c == 0
    decreases n
  {
    hide BitStep;
    if n > 0 {
      BitStepZero(c);
      StepsZero(BitStep(c), n - 1);
    }
  }

  lemma StepsInjective(a: bv32, b: bv32, n: nat)
    ensures Steps(a, n) == Steps(b, n) <==> a == b
  {
    hide Xor, Steps;
    StepsLinear(a, b, n);
    StepsZero(Xor(a, b), n);
    XorEqual(a, b);
    XorEqual(Steps(a, n), Steps(b, n));
  }

  function ByteStep(c: bv32): bv32 {
    BitStep(BitStep(BitStep(BitStep(BitStep(BitStep(BitStep(BitStep(c))))))))
  }

  lemma ByteStepIsSteps(c: bv32)
    ensures ByteStep(c) == Steps(c, 8)
  {
  }

  function Up(c: bv32): bv32 { c << 8 }

  function Down(c: bv32): bv32 { c >> 8 }

  function High(c: bv32): bv32 { c & 0xffff_ff00 }

  /** A byte step on a register whose low byte is clear just shifts it. */
  lemma ByteStepShift(c: bv32)
    requires High(c) == c
    ensures ByteStep(c) == Down(c)
  {
  }

  // ---------- the definition, bit by bit ----------

  function Bit(b: bool): bv32 {
    if b then 1 else 0
  }

  /** Feeds the register one message bit at a time. */
  function FeedBits(c: bv32, bits: seq<bool>): bv32
    decreases |bits|
  {
    if bits == [] then c else FeedBits(BitStep(Xor(c, Bit(bits[0]))), bits[1..])
  }

  /** The `n` low bits, lowest first. */
  function BitsOf(b: bv32, n: nat): seq<bool> {
    if n == 0 then [] else [Odd(b)] + BitsOf(Half(b), n - 1)
  }

  function MessageBits(bytes: seq<byte>): seq<bool> {
    if bytes == [] then [] else BitsOf(bytes[0] as bv32, 8) + MessageBits(bytes[1..])
  }

  /** The CRC-32 of section 8 of RFC 1952. */
  function Crc32(bytes: seq<byte>): bv32 {
    Xor(FeedBits(ALL_ONES, MessageBits(bytes)), ALL_ONES)
  }

  predicate Fits(b: bv32, n: nat) {
    if n == 0 then b == 0 else Fits(Half(b), n - 1)
  }

  /** A byte has eight bits: halved step by step it is gone after the eighth. */
  lemma ByteFits(b: byte)
    ensures Fits(b as bv32, 8)
  {
    var c := b as bv32;
    NothingAbove(b);
    HalfOnce(c);
    HalfAgain(c);
    hide Half;
    assert Fits(c >> 8, 0);
    assert Fits(c >> 7, 1);
    assert Fits(c >> 6, 2);
    assert Fits(c >> 5, 3);
    assert Fits(c >> 4, 4);
    assert Fits(c >> 3, 5);
    assert Fits(c >> 2, 6);
    assert Fits(c >> 1, 7);
  }

  lemma NothingAbove(b: byte)
    ensures (b as bv32) >> 8 == 0
  {
  }

  lemma HalfOnce(c: bv32)
    ensures Half(c) == c >> 1 && Half(c >> 1) == c >> 2 && Half(c >> 2) == c >> 3 && Half(c >> 3) == c >> 4
  {
  }

  lemma HalfAgain(c: bv32)
    ensures Half(c >> 4) == c >> 5 && Half(c >> 5) == c >> 6 && Half(c >> 6) == c >> 7 && Half(c >> 7) == c >> 8
  {
  }

  function Even(b: bv32): bv32 {
    Half(b) << 1
  }

  lemma SplitLowBit(b: bv32)
    ensures b == Xor(Bit(Odd(b)), Even(b))
    ensures BitStep(Even(b)) == Half(b)
  {
  }

  /** Feeding a byte bit by bit is the same as adding it at once and stepping. */
  lemma {:induction false} FeedByte(c: bv32, b: bv32, n: nat)
    requires Fits(b, n)
    ensures FeedBits(c, BitsOf(b, n)) == Steps(Xor(c, b), n)
    decreases n
  {
    hide Xor, BitStep, Half, Odd, Bit, Even;
    if n == 0 {
      XorZero(c);
    } else {
      var d := Xor(c, Bit(Odd(b)));
      FeedByte(BitStep(d), Half(b), n - 1);
      SplitLowBit(b);
      XorAssoc(c, Bit(Odd(b)), Even(b));
      BitStepLinear(d, Even(b));
      assert BitsOf(b, n)[1..] == BitsOf(Half(b), n - 1);
    }
  }

  lemma {:induction false} FeedConcat(c: bv32, x: seq<bool>, y: seq<bool>)
    ensures FeedBits(c, x + y) == FeedBits(FeedBits(c, x), y)
    decreases |x|
  {
    hide Xor, BitStep, Bit;
    if x == [] {
      assert x + y == y;
    } else {
      assert (x + y)[1..] == x[1..] + y;
      FeedConcat(BitStep(Xor(c, Bit(x[0]))), x[1..], y);
    }
  }

  /** The register after one more byte, and after a message. */
  function Next(c: bv32, b: byte): bv32 {
    ByteStep(Xor(c, b as bv32))
  }

  function Register(c: bv32, bytes: seq<byte>): bv32
    decreases |bytes|
  {
    if bytes == [] then c else Register(Next(c, bytes[0]), bytes[1..])
  }

  lemma NextIsFeed(c: bv32, b: byte)
    ensures Next(c, b) == FeedBits(c, BitsOf(b as bv32, 8))
  {
    hide Xor, ByteStep, Steps, FeedBits, BitsOf, Fits;
    ByteFits(b);
    FeedByte(c, b as bv32, 8);
    ByteStepIsSteps(Xor(c, b as bv32));
  }

  lemma {:induction false} RegisterIsFeed(c: bv32, bytes: seq<byte>)
    ensures Register(c, bytes) == FeedBits(c, MessageBits(bytes))
    decreases |bytes|
  {
    hide Next, BitsOf;
    if bytes != [] {
      NextIsFeed(c, bytes[0]);
      FeedConcat(c, BitsOf(bytes[0] as bv32, 8), MessageBits(bytes[1..]));
      RegisterIsFeed(Next(c, bytes[0]), bytes[1..]);
    }
  }

  lemma {:induction false} RegisterConcat(c: bv32, x: seq<byte>, y: seq<byte>)
    ensures Register(c, x + y) == Register(Register(c, x), y)
    decreases |x|
  {
    hide Next;
    if x == [] {
      assert x + y == y;
    } else {
      assert (x + y)[1..] == x[1..] + y;
      RegisterConcat(Next(c, x[0]), x[1..], y);
    }
  }

  // ---------- the table ----------

  /** Eight consecutive entries of CRCTable. */
  datatype Row = Row(e0: bv32, e1: bv32, e2: bv32, e3: bv32, e4: bv32, e5: bv32, e6: bv32, e7: bv32) {
    function At(j: byte): bv32 {
      match j
      case 0 => e0 case 1 => e1 case 2 => e2 case 3 => e3
      case 4 => e4 case 5 => e5 case 6 => e6 case _ => e7
    }
  }

  function TableRow(r: byte): Row {
    match r
    case 0 => Row(0x00000000, 0x77073096, 0xEE0E612C, 0x990951BA, 0x076DC419, 0x706AF48F, 0xE963A535, 0x9E6495A3)
    case 1 => Row(0x0EDB8832, 0x79DCB8A4, 0xE0D5E91E, 0x97D2D988, 0x09B64C2B, 0x7EB17CBD, 0xE7B82D07, 0x90BF1D91)
    case 2 => Row(0x1DB71064, 0x6AB020F2, 0xF3B97148, 0x84BE41DE, 0x1ADAD47D, 0x6DDDE4EB, 0xF4D4B551, 0x83D385C7)
    case 3 => Row(0x136C9856, 0x646BA8C0, 0xFD62F97A, 0x8A65C9EC, 0x14015C4F, 0x63066CD9, 0xFA0F3D63, 0x8D080DF5)
    case 4 => Row(0x3B6E20C8, 0x4C69105E, 0xD56041E4, 0xA2677172, 0x3C03E4D1, 0x4B04D447, 0xD20D85FD, 0xA50AB56B)
    case 5 => Row(0x35B5A8FA, 0x42B2986C, 0xDBBBC9D6, 0xACBCF940, 0x32D86CE3, 0x45DF5C75, 0xDCD60DCF, 0xABD13D59)
    case 6 => Row(0x26D930AC, 0x51DE003A, 0xC8D75180, 0xBFD06116, 0x21B4F4B5, 0x56B3C423, 0xCFBA9599, 0xB8BDA50F)
    case 7 => Row(0x2802B89E, 0x5F058808, 0xC60CD9B2, 0xB10BE924, 0x2F6F7C87, 0x58684C11, 0xC1611DAB, 0xB6662D3D)
    case 8 => Row(0x76DC4190, 0x01DB7106, 0x98D220BC, 0xEFD5102A, 0x71B18589, 0x06B6B51F, 0x9FBFE4A5, 0xE8B8D433)
    case 9 => Row(0x7807C9A2, 0x0F00F934, 0x9609A88E, 0xE10E9818, 0x7F6A0DBB, 0x086D3D2D, 0x91646C97, 0xE6635C01)
    case 10 => Row(0x6B6B51F4, 0x1C6C6162, 0x856530D8, 0xF262004E, 0x6C0695ED, 0x1B01A57B, 0x8208F4C1, 0xF50FC457)
    case 11 => Row(0x65B0D9C6, 0x12B7E950, 0x8BBEB8EA, 0xFCB9887C, 0x62DD1DDF, 0x15DA2D49, 0x8CD37CF3, 0xFBD44C65)
    case 12 => Row(0x4DB26158, 0x3AB551CE, 0xA3BC0074, 0xD4BB30E2, 0x4ADFA541, 0x3DD895D7, 0xA4D1C46D, 0xD3D6F4FB)
    case 13 => Row(0x4369E96A, 0x346ED9FC, 0xAD678846, 0xDA60B8D0, 0x44042D73, 0x33031DE5, 0xAA0A4C5F, 0xDD0D7CC9)
    case 14 => Row(0x5005713C, 0x270241AA, 0xBE0B1010, 0xC90C2086, 0x5768B525, 0x206F85B3, 0xB966D409, 0xCE61E49F)
    case 15 => Row(0x5EDEF90E, 0x29D9C998, 0xB0D09822, 0xC7D7A8B4, 0x59B33D17, 0x2EB40D81, 0xB7BD5C3B, 0xC0BA6CAD)
    case 16 => Row(0xEDB88320, 0x9ABFB3B6, 0x03B6E20C, 0x74B1D29A, 0xEAD54739, 0x9DD277AF, 0x04DB2615, 0x73DC1683)
    case 17 => Row(0xE3630B12, 0x94643B84, 0x0D6D6A3E, 0x7A6A5AA8, 0xE40ECF0B, 0x9309FF9D, 0x0A00AE27, 0x7D079EB1)
    case 18 => Row(0xF00F9344, 0x8708A3D2, 0x1E01F268, 0x6906C2FE, 0xF762575D, 0x806567CB, 0x196C3671, 0x6E6B06E7)
    case 19 => Row(0xFED41B76, 0x89D32BE0, 0x10DA7A5A, 0x67DD4ACC, 0xF9B9DF6F, 0x8EBEEFF9, 0x17B7BE43, 0x60B08ED5)
    case 20 => Row(0xD6D6A3E8, 0xA1D1937E, 0x38D8C2C4, 0x4FDFF252, 0xD1BB67F1, 0xA6BC5767, 0x3FB506DD, 0x48B2364B)
    case 21 => Row(0xD80D2BDA, 0xAF0A1B4C, 0x36034AF6, 0x41047A60, 0xDF60EFC3, 0xA867DF55, 0x316E8EEF, 0x4669BE79)
    case 22 => Row(0xCB61B38C, 0xBC66831A, 0x256FD2A0, 0x5268E236, 0xCC0C7795, 0xBB0B4703, 0x220216B9, 0x5505262F)
    case 23 => Row(0xC5BA3BBE, 0xB2BD0B28, 0x2BB45A92, 0x5CB36A04, 0xC2D7FFA7, 0xB5D0CF31, 0x2CD99E8B, 0x5BDEAE1D)
    case 24 => Row(0x9B64C2B0, 0xEC63F226, 0x756AA39C, 0x026D930A, 0x9C0906A9, 0xEB0E363F, 0x72076785, 0x05005713)
    case 25 => Row(0x95BF4A82, 0xE2B87A14, 0x7BB12BAE, 0x0CB61B38, 0x92D28E9B, 0xE5D5BE0D, 0x7CDCEFB7, 0x0BDBDF21)
    case 26 => Row(0x86D3D2D4, 0xF1D4E242, 0x68DDB3F8, 0x1FDA836E, 0x81BE16CD, 0xF6B9265B, 0x6FB077E1, 0x18B74777)
    case 27 => Row(0x88085AE6, 0xFF0F6A70, 0x66063BCA, 0x11010B5C, 0x8F659EFF, 0xF862AE69, 0x616BFFD3, 0x166CCF45)
    case 28 => Row(0xA00AE278, 0xD70DD2EE, 0x4E048354, 0x3903B3C2, 0xA7672661, 0xD06016F7, 0x4969474D, 0x3E6E77DB)
    case 29 => Row(0xAED16A4A, 0xD9D65ADC, 0x40DF0B66, 0x37D83BF0, 0xA9BCAE53, 0xDEBB9EC5, 0x47B2CF7F, 0x30B5FFE9)
    case 30 => Row(0xBDBDF21C, 0xCABAC28A, 0x53B39330, 0x24B4A3A6, 0xBAD03605, 0xCDD70693, 0x54DE5729, 0x23D967BF)
    case _ => Row(0xB3667A2E, 0xC4614AB8, 0x5D681B02, 0x2A6F2B94, 0xB40BBE37, 0xC30C8EA1, 0x5A05DF1B, 0x2D02EF8D)
  }

  function CRCTable(i: byte): bv32 {
    TableRow(i >> 3).At(i & 7)
  }

  /** The entries from `i` on are what a byte step makes of their indices: the first by stepping, the
      others because entries add up as their indices do. */
  predicate RowOk(row: Row, i: bv32) {
    && row.e0 == ByteStep(i)
    && row.e1 == Xor(row.e0, 0x77073096) && row.e2 == Xor(row.e0, 0xEE0E612C)
    && row.e3 == Xor(row.e0, 0x990951BA) && row.e4 == Xor(row.e0, 0x076DC419)
    && row.e5 == Xor(row.e0, 0x706AF48F) && row.e6 == Xor(row.e0, 0xE963A535)
    && row.e7 == Xor(row.e0, 0x9E6495A3)
  }

  lemma Row0() ensures RowOk(TableRow(0), 0) {}
  lemma Row1() ensures RowOk(TableRow(1), 8) {}
  lemma Row2() ensures RowOk(TableRow(2), 16) {}
  lemma Row3() ensures RowOk(TableRow(3), 24) {}
  lemma Row4() ensures RowOk(TableRow(4), 32) {}
  lemma Row5() ensures RowOk(TableRow(5), 40) {}
  lemma Row6() ensures RowOk(TableRow(6), 48) {}
  lemma Row7() ensures RowOk(TableRow(7), 56) {}
  lemma Row8() ensures RowOk(TableRow(8), 64) {}
  lemma Row9() ensures RowOk(TableRow(9), 72) {}
  lemma Row10() ensures RowOk(TableRow(10), 80) {}
  lemma Row11() ensures RowOk(TableRow(11), 88) {}
  lemma Row12() ensures RowOk(TableRow(12), 96) {}
  lemma Row13() ensures RowOk(TableRow(13), 104) {}
  lemma Row14() ensures RowOk(TableRow(14), 112) {}
  lemma Row15() ensures RowOk(TableRow(15), 120) {}
  lemma Row16() ensures RowOk(TableRow(16), 128) {}
  lemma Row17() ensures RowOk(TableRow(17), 136) {}
  lemma Row18() ensures RowOk(TableRow(18), 144) {}
  lemma Row19() ensures RowOk(TableRow(19), 152) {}
  lemma Row20() ensures RowOk(TableRow(20), 160) {}
  lemma Row21() ensures RowOk(TableRow(21), 168) {}
  lemma Row22() ensures RowOk(TableRow(22), 176) {}
  lemma Row23() ensures RowOk(TableRow(23), 184) {}
  lemma Row24() ensures RowOk(TableRow(24), 192) {}
  lemma Row25() ensures RowOk(TableRow(25), 200) {}
  lemma Row26() ensures RowOk(TableRow(26), 208) {}
  lemma Row27() ensures RowOk(TableRow(27), 216) {}
  lemma Row28() ensures RowOk(TableRow(28), 224) {}
  lemma Row29() ensures RowOk(TableRow(29), 232) {}
  lemma Row30() ensures RowOk(TableRow(30), 240) {}
  lemma Row31() ensures RowOk(TableRow(31), 248) {}

  function RowIndex(r: byte): bv32 {
    (r as bv32) << 3
  }

  lemma Rows(r: byte)
    requires r < 32
    ensures RowOk(TableRow(r), RowIndex(r))
  {
    hide RowOk, TableRow;
    match r
    case 0 => Row0(); case 1 => Row1(); case 2 => Row2(); case 3 => Row3();
    case 4 => Row4(); case 5 => Row5(); case 6 => Row6(); case 7 => Row7();
    case 8 => Row8(); case 9 => Row9(); case 10 => Row10(); case 11 => Row11();
    case 12 => Row12(); case 13 => Row13(); case 14 => Row14(); case 15 => Row15();
    case 16 => Row16(); case 17 => Row17(); case 18 => Row18(); case 19 => Row19();
    case 20 => Row20(); case 21 => Row21(); case 22 => Row22(); case 23 => Row23();
    case 24 => Row24(); case 25 => Row25(); case 26 => Row26(); case 27 => Row27();
    case 28 => Row28(); case 29 => Row29(); case 30 => Row30(); case _ => Row31();
  }

  /** The first row, by stepping. */
  lemma FirstRow(j: byte)
    requires j < 8
    ensures TableRow(0).At(j) == ByteStep(j as bv32)
  {
    Entry0(); Entry1(); Entry2(); Entry3();
    Entry4(); Entry5(); Entry6(); Entry7();
    hide ByteStep;
    match j
    case 0 => assert j as bv32 == 0; case 1 => assert j as bv32 == 1;
    case 2 => assert j as bv32 == 2; case 3 => assert j as bv32 == 3;
    case 4 => assert j as bv32 == 4; case 5 => assert j as bv32 == 5;
    case 6 => assert j as bv32 == 6; case _ => assert j == 7 && j as bv32 == 7;
  }

  lemma Entry0() ensures ByteStep(0) == 0 {}
  lemma Entry1() ensures ByteStep(1) == 0x77073096 {}
  lemma Entry2() ensures ByteStep(2) == 0xEE0E612C {}
  lemma Entry3() ensures ByteStep(3) == 0x990951BA {}
  lemma Entry4() ensures ByteStep(4) == 0x076DC419 {}
  lemma Entry5() ensures ByteStep(5) == 0x706AF48F {}
  lemma Entry6() ensures ByteStep(6) == 0xE963A535 {}
  lemma Entry7() ensures ByteStep(7) == 0x9E6495A3 {}

  lemma RowAdds(row: Row, i: bv32, j: byte)
    requires RowOk(row, i) && j < 8
    ensures row.At(j) == Xor(row.e0, TableRow(0).At(j))
  {
  }

  lemma IndexSplits(b: byte)
    ensures b as bv32 == Xor(RowIndex(b >> 3), (b & 7) as bv32)
    ensures b >> 3 < 32 && b & 7 < 8
  {
  }

  lemma ByteStepLinear(a: bv32, b: bv32)
    ensures ByteStep(Xor(a, b)) == Xor(ByteStep(a), ByteStep(b))
  {
    hide ByteStep, Xor, Steps;
    ByteStepIsSteps(a);
    ByteStepIsSteps(b);
    ByteStepIsSteps(Xor(a, b));
    StepsLinear(a, b, 8);
  }

  /** Every entry of the table is its index after eight steps of the register. */
  lemma TableEntry(b: byte)
    ensures CRCTable(b) == Steps(b as bv32, 8)
  {
    hide ByteStep, Xor, Steps, TableRow, Row.At, RowIndex;
    IndexSplits(b);
    Rows(b >> 3);
    RowAdds(TableRow(b >> 3), RowIndex(b >> 3), b & 7);
    FirstRow(b & 7);
    ByteStepLinear(RowIndex(b >> 3), (b & 7) as bv32);
    ByteStepIsSteps(b as bv32);
  }

  // ---------- the table-driven loop ----------

  function LowByte(c: bv32): byte {
    (c & 0xff) as byte
  }

  lemma LowByteSplits(c: bv32, b: byte)
    ensures Xor(c, b as bv32) == Xor(High(Xor(c, b as bv32)), (LowByte(c) ^ b) as bv32)
  {
  }

  lemma HighKeeps(c: bv32, b: byte)
    ensures Down(High(Xor(c, b as bv32))) == Down(c)
  {
  }

  lemma HighTwice(c: bv32)
    ensures High(High(c)) == High(c)
  {
  }

  /** Shifting by a byte and adding the table entry is feeding eight message bits. */
  lemma TableStep(c: bv32, b: byte)
    ensures Xor(Down(c), CRCTable(LowByte(c) ^ b)) == Next(c, b)
  {
    hide Xor, ByteStep, Steps, CRCTable, LowByte, High, Down;
    var x := Xor(c, b as bv32);
    var i := LowByte(c) ^ b;
    LowByteSplits(c, b);
    HighKeeps(c, b);
    HighTwice(x);
    ByteStepShift(High(x));
    ByteStepLinear(High(x), i as bv32);
    TableEntry(i);
    ByteStepIsSteps(i as bv32);
  }

  /** CalculateCrc over the first `Size` bytes. The 64-bit accumulator of the source never holds more
      than 32 bits, because every table entry has 32. */
  method CalculateCrc(pt: array<byte>, size: nat) returns (crc: bv32)
    requires size <= pt.Length
    ensures crc == Crc32(pt[..size])
  {
    hide Xor, CRCTable, LowByte, Down, Next, FeedBits, MessageBits;
    crc := ALL_ONES;
    var i := 0;
    while i < size
      invariant i <= size
      invariant Register(crc, pt[i..size]) == Register(ALL_ONES, pt[..size])
    {
      TableStep(crc, pt[i]);
      assert pt[i..size][1..] == pt[i + 1..size];
      crc := Xor(Down(crc), CRCTable(LowByte(crc) ^ pt[i]));
      i := i + 1;
    }
    RegisterIsFeed(ALL_ONES, pt[..size]);
    crc := Xor(crc, ALL_ONES);
  }

  // ---------- the check value ----------

  lemma RegisterThree(c: bv32, x: byte, y: byte, z: byte)
    ensures Register(c, [x, y, z]) == Next(Next(Next(c, x), y), z)
  {
    hide Next;
    assert [x, y, z][1..] == [y, z] && [y, z][1..] == [z];
    assert Register(c, [x, y, z]) == Register(Next(c, x), [y, z]);
    assert Register(Next(Next(c, x), y), [z]) == Register(Next(Next(Next(c, x), y), z), []);
  }

  lemma Low() ensures Next(0xFFFF_FFFF, 0x31) == 0x7C23_1048 && Next(0x7C23_1048, 0x32) == 0xB0AC_BB32 {}
  lemma LowEnd() ensures Next(0xB0AC_BB32, 0x33) == 0x77B7_9C2D {}
  lemma Mid() ensures Next(0x77B7_9C2D, 0x34) == 0x641C_1F5C && Next(0x641C_1F5C, 0x35) == 0x340A_C5E3 {}
  lemma MidEnd() ensures Next(0x340A_C5E3, 0x36) == 0xF68D_2C9E {}
  lemma Top() ensures Next(0xF68D_2C9E, 0x37) == 0xAFFC_9660 && Next(0xAFFC_9660, 0x38) == 0x651F_2550 {}
  lemma TopEnd() ensures Next(0x651F_2550, 0x39) == 0x340B_C6D9 {}

  lemma CheckRegister(low: seq<byte>, mid: seq<byte>, top: seq<byte>)
    requires low == [0x31, 0x32, 0x33] && mid == [0x34, 0x35, 0x36] && top == [0x37, 0x38, 0x39]
    ensures Register(0xFFFF_FFFF, low + (mid + top)) == 0x340B_C6D9
  {
    hide Next, Register;
    Low(); LowEnd(); Mid(); MidEnd(); Top(); TopEnd();
    RegisterThree(0xFFFF_FFFF, 0x31, 0x32, 0x33);
    RegisterThree(0x77B7_9C2D, 0x34, 0x35, 0x36);
    RegisterThree(0xF68D_2C9E, 0x37, 0x38, 0x39);
    RegisterConcat(0xFFFF_FFFF, low, mid + top);
    RegisterConcat(0x77B7_9C2D, mid, top);
  }

  lemma Complement()
    ensures Xor(0x340B_C6D9, ALL_ONES) == 0xCBF4_3926
  {
  }

  /** The digits from 1 to 9 have the CRC by which this CRC-32 is known. */
  lemma CheckValue()
    ensures Crc32([0x31, 0x32, 0x33, 0x34, 0x35, 0x36, 0x37, 0x38, 0x39]) == 0xCBF4_3926
  {
    hide Next, Register, FeedBits, MessageBits, Xor;
    var low, mid, top: seq<byte> := [0x31, 0x32, 0x33], [0x34, 0x35, 0x36], [0x37, 0x38, 0x39];
    CheckRegister(low, mid, top);
    RegisterIsFeed(0xFFFF_FFFF, low + (mid + top));
    Complement();
    assert low + (mid + top) == [0x31, 0x32, 0x33, 0x34, 0x35, 0x36, 0x37, 0x38, 0x39];
  }

  // ---------- errors of up to four bytes ----------

  lemma {:induction false} RegisterInjective(c: bv32, d: bv32, bytes: seq<byte>)
    ensures Register(c, bytes) == Register(d, bytes) <==> c == d
    decreases |bytes|
  {
    hide Xor, ByteStep, Steps;
    if bytes != [] {
      var b := bytes[0] as bv32;
      ByteStepIsSteps(Xor(c, b));
      ByteStepIsSteps(Xor(d, b));
      StepsInjective(Xor(c, b), Xor(d, b), 8);
      XorRight(c, d, b);
      RegisterInjective(Next(c, bytes[0]), Next(d, bytes[0]), bytes[1..]);
    }
  }

  lemma XorRight(c: bv32, d: bv32, b: bv32)
    ensures Xor(c, b) == Xor(d, b) <==> c == d
  {
  }

  /** Up to four bytes as one little-endian word. */
  function Pack(w: seq<byte>): bv32 {
    if w == [] then 0 else Xor(Up(Pack(w[1..])), w[0] as bv32)
  }

  predicate AtMost(c: bv32, m: bv32) { c <= m }

  lemma PackOne(b: byte)
    ensures AtMost(Xor(Up(0), b as bv32), 0xff)
  {
  }

  lemma PackTwo(c: bv32, b: byte)
    requires AtMost(c, 0xff)
    ensures AtMost(Xor(Up(c), b as bv32), 0xffff)
  {
  }

  lemma PackThree(c: bv32, b: byte)
    requires AtMost(c, 0xffff)
    ensures AtMost(Xor(Up(c), b as bv32), 0xff_ffff)
  {
  }

  lemma AtMostOne(c: bv32)
    requires AtMost(c, 0xff)
    ensures AtMost(c, 0xff_ffff)
  {
  }

  lemma AtMostTwo(c: bv32)
    requires AtMost(c, 0xffff)
    ensures AtMost(c, 0xff_ffff)
  {
  }

  /** Three bytes leave the top byte clear. */
  lemma {:induction false} PackBelow(w: seq<byte>)
    requires |w| <= 3
    ensures AtMost(Pack(w), if |w| == 0 then 0 else if |w| == 1 then 0xff else if |w| == 2 then 0xffff else 0xff_ffff)
    ensures AtMost(Pack(w), 0xff_ffff)
  {
    hide Xor, Up, AtMost;
    if |w| == 0 {
      AtMostZero();
    } else {
      PackBelow(w[1..]);
      if |w| == 1 {
        PackOne(w[0]);
        AtMostOne(Pack(w));
      } else if |w| == 2 {
        PackTwo(Pack(w[1..]), w[0]);
        AtMostTwo(Pack(w));
      } else {
        PackThree(Pack(w[1..]), w[0]);
      }
    }
  }

  lemma AtMostZero()
    ensures AtMost(0, 0) && AtMost(0, 0xff_ffff)
  {
  }

  lemma DownUp(c: bv32)
    requires AtMost(c, 0xff_ffff)
    ensures Down(Up(c)) == c
  {
  }

  lemma HighUp(c: bv32)
    ensures High(Up(c)) == Up(c)
  {
  }

  lemma UnpackLow(c: bv32, d: bv32, a: byte, b: byte)
    requires Xor(Up(c), a as bv32) == Xor(Up(d), b as bv32)
    ensures a == b
  {
  }

  lemma UnpackHigh(c: bv32, d: bv32, a: byte)
    requires AtMost(c, 0xff_ffff) && AtMost(d, 0xff_ffff)
    requires Xor(Up(c), a as bv32) == Xor(Up(d), a as bv32)
    ensures c == d
  {
  }

  lemma {:induction false} PackInjective(w: seq<byte>, v: seq<byte>)
    requires |w| == |v| <= 4 && Pack(w) == Pack(v)
    ensures w == v
  {
    hide Xor, Up, AtMost;
    if w != [] {
      PackBelow(w[1..]);
      PackBelow(v[1..]);
      UnpackLow(Pack(w[1..]), Pack(v[1..]), w[0], v[0]);
      UnpackHigh(Pack(w[1..]), Pack(v[1..]), w[0]);
      PackInjective(w[1..], v[1..]);
      assert w == [w[0]] + w[1..] && v == [v[0]] + v[1..];
    }
  }

  /** Up to four bytes can be added to the register all at once. */
  lemma {:induction false} RegisterPack(c: bv32, w: seq<byte>)
    requires |w| <= 4
    ensures Register(c, w) == Steps(Xor(c, Pack(w)), 8 * |w|)
    decreases |w|
  {
    hide Xor, ByteStep, Steps, Up, Down, High, AtMost;
    if w == [] {
      XorZero(c);
      assert Steps(c, 0) == c by { StepsNone(c); }
    } else {
      var b, r := w[0] as bv32, Pack(w[1..]);
      RegisterPack(Next(c, w[0]), w[1..]);
      PackBelow(w[1..]);
      DownUp(r);
      HighUp(r);
      ByteStepShift(Up(r));
      ByteStepLinear(Xor(c, b), Up(r));
      ByteStepIsSteps(Xor(Xor(c, b), Up(r)));
      StepsAdd(Xor(Xor(c, b), Up(r)), 8, 8 * (|w| - 1));
      XorAssoc(c, b, Up(r));
      XorComm(b, Up(r));
    }
  }

  lemma StepsNone(c: bv32)
    ensures Steps(c, 0) == c
  {
  }

  /** The two messages agree outside the `m` bytes from `k` on. */
  ghost predicate DifferOnlyIn(x: seq<byte>, y: seq<byte>, k: nat, m: nat) {
    |x| == |y| && forall j :: 0 <= j < |x| && !(k <= j < k + m) ==> x[j] == y[j]
  }

  /** A change confined to four consecutive bytes always changes the CRC. */
  lemma BurstDetected(x: seq<byte>, y: seq<byte>, k: nat)
    requires DifferOnlyIn(x, y, k, 4)
    ensures Crc32(x) == Crc32(y) <==> x == y
  {
    hide Xor, Steps, FeedBits, MessageBits, Register, Pack;
    if x != y {
      var n := |x|;
      assert k < n;
      var e := if k + 4 <= n then k + 4 else n;
      var w, v := x[k..e], y[k..e];
      assert x == x[..k] + (w + x[e..]) && y == x[..k] + (v + x[e..]);
      assert w != v;
      var c := Register(ALL_ONES, x[..k]);
      RegisterConcat(ALL_ONES, x[..k], w + x[e..]);
      RegisterConcat(ALL_ONES, x[..k], v + x[e..]);
      RegisterConcat(c, w, x[e..]);
      RegisterConcat(c, v, x[e..]);
      BurstChangesRegister(c, w, v);
      RegisterInjective(Register(c, w), Register(c, v), x[e..]);
      RegisterIsFeed(ALL_ONES, x);
      RegisterIsFeed(ALL_ONES, y);
      XorRight(Register(ALL_ONES, x), Register(ALL_ONES, y), ALL_ONES);
    }
  }

  lemma BurstChangesRegister(c: bv32, w: seq<byte>, v: seq<byte>)
    requires |w| == |v| <= 4 && w != v
    ensures Register(c, w) != Register(c, v)
  {
    hide Xor, Steps, Register, Pack;
    RegisterPack(c, w);
    RegisterPack(c, v);
    StepsInjective(Xor(c, Pack(w)), Xor(c, Pack(v)), 8 * |w|);
    XorComm(c, Pack(w));
    XorComm(c, Pack(v));
    XorRight(Pack(w), Pack(v), c);
    if Pack(w) == Pack(v) { PackInjective(w, v); }
  }

  /** Four is the most that can be promised: adding the generator polynomial to five consecutive bytes
      leaves the CRC of the message as it was, wherever they are and whatever they hold. */
  lemma FiveBytesUndetected(head: seq<byte>, a0: byte, a1: byte, a2: byte, a3: byte, a4: byte, tail: seq<byte>)
    ensures var x, y := head + [a0, a1, a2, a3, a4] + tail, head + [a0 ^ 0x41, a1 ^ 0x06, a2 ^ 0x71, a3 ^ 0xdb, a4 ^ 0x01] + tail;
            x != y && Crc32(x) == Crc32(y)
  {
    var w, v := [a0, a1, a2, a3, a4], [a0 ^ 0x41, a1 ^ 0x06, a2 ^ 0x71, a3 ^ 0xdb, a4 ^ 0x01];
    ByteDiffers(a0);
    assert (head + w + tail)[|head|] == a0 && (head + v + tail)[|head|] == a0 ^ 0x41;
    hide Xor, Register, FeedBits, MessageBits;
    FiveBytesCancel(Register(ALL_ONES, head), a0, a1, a2, a3, a4);
    RegisterConcat(ALL_ONES, head, w);
    RegisterConcat(ALL_ONES, head, v);
    RegisterConcat(ALL_ONES, head + w, tail);
    RegisterConcat(ALL_ONES, head + v, tail);
    RegisterIsFeed(ALL_ONES, head + w + tail);
    RegisterIsFeed(ALL_ONES, head + v + tail);
  }

  lemma ByteDiffers(a: byte)
    ensures a ^ 0x41 != a
  {
  }

  lemma FiveBytesCancel(c: bv32, a0: byte, a1: byte, a2: byte, a3: byte, a4: byte)
    ensures Register(c, [a0, a1, a2, a3, a4]) == Register(c, [a0 ^ 0x41, a1 ^ 0x06, a2 ^ 0x71, a3 ^ 0xdb, a4 ^ 0x01])
  {
    hide Xor, Steps, Register, Pack, ByteStep;
    var w, v := [a0, a1, a2, a3], [a0 ^ 0x41, a1 ^ 0x06, a2 ^ 0x71, a3 ^ 0xdb];
    RegisterPack(c, w);
    RegisterPack(c, v);
    PackDiffers(a0, a1, a2, a3);
    XorAssoc(c, Pack(w), 0xdb710641);
    StepsLinear(Xor(c, Pack(w)), 0xdb710641, 32);
    GeneratorSteps();
    assert Register(c, v) == Xor(Register(c, w), 1);
    RegisterConcat(c, w, [a4]);
    RegisterConcat(c, v, [a4 ^ 0x01]);
    assert w + [a4] == [a0, a1, a2, a3, a4];
    assert v + [a4 ^ 0x01] == [a0 ^ 0x41, a1 ^ 0x06, a2 ^ 0x71, a3 ^ 0xdb, a4 ^ 0x01];
    LastByte(Register(c, w), a4);
  }

  lemma LastByte(c: bv32, b: byte)
    ensures Register(c, [b]) == Register(Xor(c, 1), [b ^ 0x01])
  {
  }

  function Word(a0: byte, a1: byte, a2: byte, a3: byte): bv32 {
    Xor(Up(Xor(Up(Xor(Up(a3 as bv32), a2 as bv32)), a1 as bv32)), a0 as bv32)
  }

  lemma PackFour(a0: byte, a1: byte, a2: byte, a3: byte)
    ensures Pack([a0, a1, a2, a3]) == Word(a0, a1, a2, a3)
  {
    hide Xor, Up, Pack;
    PackLast(a3);
    PackCons(a2, [a3], [a2, a3]);
    PackCons(a1, [a2, a3], [a1, a2, a3]);
    PackCons(a0, [a1, a2, a3], [a0, a1, a2, a3]);
  }

  lemma PackCons(a: byte, r: seq<byte>, w: seq<byte>)
    requires w == [a] + r
    ensures Pack(w) == Xor(Up(Pack(r)), a as bv32)
  {
  }

  lemma PackLast(a: byte)
    ensures Pack([a]) == a as bv32
  {
  }

  lemma WordDiffers(a0: byte, a1: byte, a2: byte, a3: byte)
    ensures Word(a0 ^ 0x41, a1 ^ 0x06, a2 ^ 0x71, a3 ^ 0xdb) == Word(a0, a1, a2, a3) ^ 0xdb710641
  {
  }

  lemma PackDiffers(a0: byte, a1: byte, a2: byte, a3: byte)
    ensures Pack([a0 ^ 0x41, a1 ^ 0x06, a2 ^ 0x71, a3 ^ 0xdb]) == Xor(Pack([a0, a1, a2, a3]), 0xdb710641)
  {
    hide Pack, Word;
    PackFour(a0, a1, a2, a3);
    PackFour(a0 ^ 0x41, a1 ^ 0x06, a2 ^ 0x71, a3 ^ 0xdb);
    WordDiffers(a0, a1, a2, a3);
  }

  /** The generator polynomial itself leaves a single bit, which the fifth byte takes away. */
  lemma GeneratorSteps()
    ensures Steps(0xdb710641, 32) == 1
  {
    GeneratorStep1();
    GeneratorStep2();
    GeneratorStep3();
    GeneratorStep4();
    hide ByteStep;
    ByteStepsAre(0xdb710641, 0x1000000, 0x10000, 0x100);
  }

  lemma GeneratorStep1() ensures ByteStep(0xdb710641) == 0x1000000 {}
  lemma GeneratorStep2() ensures ByteStep(0x1000000) == 0x10000 {}
  lemma GeneratorStep3() ensures ByteStep(0x10000) == 0x100 {}
  lemma GeneratorStep4() ensures ByteStep(0x100) == 1 {}

  lemma ByteStepsAre(c: bv32, d: bv32, e: bv32, f: bv32)
    requires ByteStep(c) == d && ByteStep(d) == e && ByteStep(e) == f
    ensures Steps(c, 32) == ByteStep(f)
  {
    hide ByteStep, Steps;
    ByteStepIsSteps(c);
    ByteStepIsSteps(d);
    ByteStepIsSteps(e);
    ByteStepIsSteps(f);
    StepsAdd(c, 8, 8);
    StepsAdd(c, 16, 8);
    StepsAdd(c, 24, 8);
  }

  // ---------- table headers ----------

  /** Where EFI_TABLE_HEADER keeps its CRC32 field. */
  const CRC_FIELD: nat := 16

  function ByteAt(c: bv32, k: nat): byte
    requires k < 4
  {
    if k == 0 then (c & 0xff) as byte
    else if k == 1 then ((c >> 8) & 0xff) as byte
    else if k == 2 then ((c >> 16) & 0xff) as byte
    else ((c >> 24) & 0xff) as byte
  }

  function LittleEndian(c: bv32): (w: seq<byte>)
    ensures |w| == 4
  {
    [ByteAt(c, 0), ByteAt(c, 1), ByteAt(c, 2), ByteAt(c, 3)]
  }

  /** Hdr->CRC32, read and written. */
  function Field(h: seq<byte>): bv32
    requires |h| >= CRC_FIELD + 4
  {
    Word(h[16], h[17], h[18], h[19])
  }

  function Stamped(h: seq<byte>, c: bv32): (g: seq<byte>)
    requires |h| >= CRC_FIELD + 4
    ensures |g| == |h|
  {
    h[..CRC_FIELD] + LittleEndian(c) + h[CRC_FIELD + 4..]
  }

  lemma FieldOfStamped(h: seq<byte>, c: bv32)
    requires |h| >= CRC_FIELD + 4
    ensures Field(Stamped(h, c)) == c
  {
  }

  lemma StampedTwice(h: seq<byte>, c: bv32, d: bv32)
    requires |h| >= CRC_FIELD + 4
    ensures Stamped(Stamped(h, c), d) == Stamped(h, d)
  {
  }

  /** The CRC of the first `size` bytes with the field taken as zero. */
  function HeaderCrc(h: seq<byte>, size: nat): bv32
    requires CRC_FIELD + 4 <= |h| && size <= |h|
  {
    Crc32(Stamped(h, 0)[..size])
  }

  function Sealed(h: seq<byte>, size: nat): seq<byte>
    requires CRC_FIELD + 4 <= |h| && size <= |h|
  {
    Stamped(h, HeaderCrc(h, size))
  }

  predicate Passes(h: seq<byte>, maxSize: nat, size: nat)
    requires CRC_FIELD + 4 <= |h| && size <= |h|
  {
    size != 0 && (maxSize == 0 || size <= maxSize) && Field(h) == HeaderCrc(h, size)
  }

  /** Hdr->CRC32 = c */
  method WriteField(hdr: array<byte>, c: bv32)
    requires hdr.Length >= CRC_FIELD + 4
    modifies hdr
    ensures hdr[..] == Stamped(old(hdr[..]), c)
  {
    hide ByteAt;
    hdr[16], hdr[17], hdr[18], hdr[19] := ByteAt(c, 0), ByteAt(c, 1), ByteAt(c, 2), ByteAt(c, 3);
  }

  method SetCrcAltSize(size: nat, hdr: array<byte>)
    requires CRC_FIELD + 4 <= hdr.Length && size <= hdr.Length
    modifies hdr
    ensures hdr[..] == Sealed(old(hdr[..]), size)
  {
    hide Crc32, Stamped;
    WriteField(hdr, 0);
    assert hdr[..size] == hdr[..][..size];
    var crc := CalculateCrc(hdr, size);
    StampedTwice(old(hdr[..]), 0, crc);
    WriteField(hdr, crc);
  }

  /** The field is cleared for the computation and put back. */
  method CheckCrcAltSize(maxSize: nat, size: nat, hdr: array<byte>) returns (f: bool)
    requires CRC_FIELD + 4 <= hdr.Length && size <= hdr.Length
    modifies hdr
    ensures hdr[..] == old(hdr[..])
    ensures f <==> Passes(old(hdr[..]), maxSize, size)
  {
    hide Crc32, Stamped, Word;
    if size == 0 {
      return false;
    }
    if maxSize != 0 && size > maxSize {
      return false;
    }
    var orgCrc := Word(hdr[16], hdr[17], hdr[18], hdr[19]);
    WriteField(hdr, 0);
    assert hdr[..size] == hdr[..][..size];
    var crc := CalculateCrc(hdr, size);
    StampedTwice(old(hdr[..]), 0, orgCrc);
    StampedSelf(old(hdr[..]));
    WriteField(hdr, orgCrc);
    return orgCrc == crc;
  }

  lemma BytesOfWord(a0: byte, a1: byte, a2: byte, a3: byte)
    ensures ByteAt(Word(a0, a1, a2, a3), 0) == a0
    ensures ByteAt(Word(a0, a1, a2, a3), 1) == a1
    ensures ByteAt(Word(a0, a1, a2, a3), 2) == a2
    ensures ByteAt(Word(a0, a1, a2, a3), 3) == a3
  {
  }

  lemma StampedSelf(h: seq<byte>)
    requires |h| >= CRC_FIELD + 4
    ensures Stamped(h, Field(h)) == h
  {
    hide Word, ByteAt;
    BytesOfWord(h[16], h[17], h[18], h[19]);
  }

  // ---------- what the header checks promise ----------

  /** A sealed header passes, whatever it holds. */
  lemma SealedPasses(h: seq<byte>, maxSize: nat, size: nat)
    requires CRC_FIELD + 4 <= |h| && size <= |h|
    ensures Passes(Sealed(h, size), maxSize, size) <==> size != 0 && (maxSize == 0 || size <= maxSize)
  {
    hide Crc32, Stamped, Word;
    FieldOfStamped(h, HeaderCrc(h, size));
    StampedTwice(h, HeaderCrc(h, size), 0);
  }

  /** After sealing, a change confined to four consecutive covered bytes, the CRC32 field apart, is
      always caught. */
  lemma TamperingDetected(h: seq<byte>, g: seq<byte>, size: nat, maxSize: nat, k: nat)
    requires CRC_FIELD + 4 <= |h| && size <= |h| && |g| == |h|
    requires var s := Sealed(h, size);
             && DifferOnlyIn(s[..size], g[..size], k, 4) && s[..size] != g[..size]
             && s[CRC_FIELD..CRC_FIELD + 4] == g[CRC_FIELD..CRC_FIELD + 4]
    ensures !Passes(g, maxSize, size)
  {
    hide Crc32, Word, ByteAt;
    var s := Sealed(h, size);
    var x, y := Stamped(s, 0)[..size], Stamped(g, 0)[..size];
    SealedPasses(h, 0, size);
    forall j | 0 <= j < size ensures (s[j] != g[j] ==> x[j] == s[j] && y[j] == g[j]) && (s[j] == g[j] ==> x[j] == y[j]) {
      if CRC_FIELD <= j < CRC_FIELD + 4 {
        assert s[j] == s[CRC_FIELD..CRC_FIELD + 4][j - CRC_FIELD];
        assert g[j] == g[CRC_FIELD..CRC_FIELD + 4][j - CRC_FIELD];
      }
    }
    assert forall j :: 0 <= j < size ==> s[..size][j] == s[j] && g[..size][j] == g[j];
    assert DifferOnlyIn(x, y, k, 4);
    assert x != y;
    BurstDetected(x, y, k);
    assert Field(g) == Field(s) by { FieldsAgree(s, g); }
  }

  lemma FieldsAgree(s: seq<byte>, g: seq<byte>)
    requires |s| >= CRC_FIELD + 4 && |g| >= CRC_FIELD + 4
    requires s[CRC_FIELD..CRC_FIELD + 4] == g[CRC_FIELD..CRC_FIELD + 4]
    ensures Field(s) == Field(g)
  {
    hide Word;
    var x, y := s[CRC_FIELD..CRC_FIELD + 4], g[CRC_FIELD..CRC_FIELD + 4];
    assert x[0] == s[16] && x[1] == s[17] && x[2] == s[18] && x[3] == s[19];
    assert y[0] == g[16] && y[1] == g[17] && y[2] == g[18] && y[3] == g[19];
  }

  /** A change to the field alone is caught too. */
  lemma WrongFieldDetected(h: seq<byte>, c: bv32, size: nat, maxSize: nat)
    requires CRC_FIELD + 4 <= |h| && 0 < size <= |h|
    ensures Passes(Stamped(Sealed(h, size), c), maxSize, size) <==> c == HeaderCrc(h, size) && (maxSize == 0 || size <= maxSize)
  {
    hide Crc32, Stamped, Word;
    StampedTwice(h, HeaderCrc(h, size), c);
    FieldOfStamped(h, c);
    StampedTwice(h, c, 0);
  }
}

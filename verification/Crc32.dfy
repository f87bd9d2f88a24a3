/** The table-driven CRC of src/std_crc32.c against the bit-serial one (CRC-32 as in section 8 of
    RFC 1952 and section 8.1.1.6.2 of ITU-T V.42). */
module Crc32 {

  const ROW_0: seq<bv32> := [
    0x00000000, 0x77073096, 0xee0e612c, 0x990951ba, 0x076dc419, 0x706af48f, 0xe963a535, 0x9e6495a3,
    0x0edb8832, 0x79dcb8a4, 0xe0d5e91e, 0x97d2d988, 0x09b64c2b, 0x7eb17cbd, 0xe7b82d07, 0x90bf1d91]
  const ROW_1: seq<bv32> := [
    0x1db71064, 0x6ab020f2, 0xf3b97148, 0x84be41de, 0x1adad47d, 0x6ddde4eb, 0xf4d4b551, 0x83d385c7,
    0x136c9856, 0x646ba8c0, 0xfd62f97a, 0x8a65c9ec, 0x14015c4f, 0x63066cd9, 0xfa0f3d63, 0x8d080df5]
  const ROW_2: seq<bv32> := [
    0x3b6e20c8, 0x4c69105e, 0xd56041e4, 0xa2677172, 0x3c03e4d1, 0x4b04d447, 0xd20d85fd, 0xa50ab56b,
    0x35b5a8fa, 0x42b2986c, 0xdbbbc9d6, 0xacbcf940, 0x32d86ce3, 0x45df5c75, 0xdcd60dcf, 0xabd13d59]
  const ROW_3: seq<bv32> := [
    0x26d930ac, 0x51de003a, 0xc8d75180, 0xbfd06116, 0x21b4f4b5, 0x56b3c423, 0xcfba9599, 0xb8bda50f,
    0x2802b89e, 0x5f058808, 0xc60cd9b2, 0xb10be924, 0x2f6f7c87, 0x58684c11, 0xc1611dab, 0xb6662d3d]
  const ROW_4: seq<bv32> := [
    0x76dc4190, 0x01db7106, 0x98d220bc, 0xefd5102a, 0x71b18589, 0x06b6b51f, 0x9fbfe4a5, 0xe8b8d433,
    0x7807c9a2, 0x0f00f934, 0x9609a88e, 0xe10e9818, 0x7f6a0dbb, 0x086d3d2d, 0x91646c97, 0xe6635c01]
  const ROW_5: seq<bv32> := [
    0x6b6b51f4, 0x1c6c6162, 0x856530d8, 0xf262004e, 0x6c0695ed, 0x1b01a57b, 0x8208f4c1, 0xf50fc457,
    0x65b0d9c6, 0x12b7e950, 0x8bbeb8ea, 0xfcb9887c, 0x62dd1ddf, 0x15da2d49, 0x8cd37cf3, 0xfbd44c65]
  const ROW_6: seq<bv32> := [
    0x4db26158, 0x3ab551ce, 0xa3bc0074, 0xd4bb30e2, 0x4adfa541, 0x3dd895d7, 0xa4d1c46d, 0xd3d6f4fb,
    0x4369e96a, 0x346ed9fc, 0xad678846, 0xda60b8d0, 0x44042d73, 0x33031de5, 0xaa0a4c5f, 0xdd0d7cc9]
  const ROW_7: seq<bv32> := [
    0x5005713c, 0x270241aa, 0xbe0b1010, 0xc90c2086, 0x5768b525, 0x206f85b3, 0xb966d409, 0xce61e49f,
    0x5edef90e, 0x29d9c998, 0xb0d09822, 0xc7d7a8b4, 0x59b33d17, 0x2eb40d81, 0xb7bd5c3b, 0xc0ba6cad]
  const ROW_8: seq<bv32> := [
    0xedb88320, 0x9abfb3b6, 0x03b6e20c, 0x74b1d29a, 0xead54739, 0x9dd277af, 0x04db2615, 0x73dc1683,
    0xe3630b12, 0x94643b84, 0x0d6d6a3e, 0x7a6a5aa8, 0xe40ecf0b, 0x9309ff9d, 0x0a00ae27, 0x7d079eb1]
  const ROW_9: seq<bv32> := [
    0xf00f9344, 0x8708a3d2, 0x1e01f268, 0x6906c2fe, 0xf762575d, 0x806567cb, 0x196c3671, 0x6e6b06e7,
    0xfed41b76, 0x89d32be0, 0x10da7a5a, 0x67dd4acc, 0xf9b9df6f, 0x8ebeeff9, 0x17b7be43, 0x60b08ed5]
  const ROW_A: seq<bv32> := [
    0xd6d6a3e8, 0xa1d1937e, 0x38d8c2c4, 0x4fdff252, 0xd1bb67f1, 0xa6bc5767, 0x3fb506dd, 0x48b2364b,
    0xd80d2bda, 0xaf0a1b4c, 0x36034af6, 0x41047a60, 0xdf60efc3, 0xa867df55, 0x316e8eef, 0x4669be79]
  const ROW_B: seq<bv32> := [
    0xcb61b38c, 0xbc66831a, 0x256fd2a0, 0x5268e236, 0xcc0c7795, 0xbb0b4703, 0x220216b9, 0x5505262f,
    0xc5ba3bbe, 0xb2bd0b28, 0x2bb45a92, 0x5cb36a04, 0xc2d7ffa7, 0xb5d0cf31, 0x2cd99e8b, 0x5bdeae1d]
  const ROW_C: seq<bv32> := [
    0x9b64c2b0, 0xec63f226, 0x756aa39c, 0x026d930a, 0x9c0906a9, 0xeb0e363f, 0x72076785, 0x05005713,
    0x95bf4a82, 0xe2b87a14, 0x7bb12bae, 0x0cb61b38, 0x92d28e9b, 0xe5d5be0d, 0x7cdcefb7, 0x0bdbdf21]
  const ROW_D: seq<bv32> := [
    0x86d3d2d4, 0xf1d4e242, 0x68ddb3f8, 0x1fda836e, 0x81be16cd, 0xf6b9265b, 0x6fb077e1, 0x18b74777,
    0x88085ae6, 0xff0f6a70, 0x66063bca, 0x11010b5c, 0x8f659eff, 0xf862ae69, 0x616bffd3, 0x166ccf45]
  const ROW_E: seq<bv32> := [
    0xa00ae278, 0xd70dd2ee, 0x4e048354, 0x3903b3c2, 0xa7672661, 0xd06016f7, 0x4969474d, 0x3e6e77db,
    0xaed16a4a, 0xd9d65adc, 0x40df0b66, 0x37d83bf0, 0xa9bcae53, 0xdebb9ec5, 0x47b2cf7f, 0x30b5ffe9]
  const ROW_F: seq<bv32> := [
    0xbdbdf21c, 0xcabac28a, 0x53b39330, 0x24b4a3a6, 0xbad03605, 0xcdd70693, 0x54de5729, 0x23d967bf,
    0xb3667a2e, 0xc4614ab8, 0x5d681b02, 0x2a6f2b94, 0xb40bbe37, 0xc30c8ea1, 0x5a05df1b, 0x2d02ef8d]

  /** crc32_tab, laid out in rows of sixteen */
  const CRC32_TAB: seq<seq<bv32>> := [
    ROW_0, ROW_1, ROW_2, ROW_3, ROW_4, ROW_5, ROW_6, ROW_7,
    ROW_8, ROW_9, ROW_A, ROW_B, ROW_C, ROW_D, ROW_E, ROW_F
  ]

  /** crc32_tab[i] */
  function Entry(i: bv8): Word {
    Word(CRC32_TAB[i as int / 16][i as int % 16])
  }

  const POLYNOMIAL := Word(0xedb88320)

  // ----- words as bit strings, least significant bit first -----

  type Bits = seq<bool>

  function Zeros(n: nat): Bits {
    seq(n, i => false)
  }

  /** Addition of polynomials over the two-element field. */
  function Xor(a: Bits, b: Bits): (c: Bits)
    requires |a| == |b|
    ensures |c| == |a|
  {
    seq(|a|, i requires 0 <= i < |a| => a[i] != b[i])
  }

  /** uint32_t */
  datatype Word = Word(v: bv32) {
    function Plus(o: Word): Word { Word(v ^ o.v) }

    function Half(): Word { Word(v >> 1) }

    /** w >> 8 */
    function HighBytes(): Word { Word(v >> 8) }

    /** w & 0xff */
    function LowByte(): bv8 { (v & 0xff) as bv8 }

    predicate Bit0(i: nat) {
      match i
      case 0 => v & 0x1 != 0
      case 1 => v & 0x2 != 0
      case 2 => v & 0x4 != 0
      case 3 => v & 0x8 != 0
      case 4 => v & 0x10 != 0
      case 5 => v & 0x20 != 0
      case 6 => v & 0x40 != 0
      case _ => v & 0x80 != 0
    }

    predicate Bit1(i: nat) {
      match i
      case 8 => v & 0x100 != 0
      case 9 => v & 0x200 != 0
      case 10 => v & 0x400 != 0
      case 11 => v & 0x800 != 0
      case 12 => v & 0x1000 != 0
      case 13 => v & 0x2000 != 0
      case 14 => v & 0x4000 != 0
      case _ => v & 0x8000 != 0
    }

    predicate Bit2(i: nat) {
      match i
      case 16 => v & 0x10000 != 0
      case 17 => v & 0x20000 != 0
      case 18 => v & 0x40000 != 0
      case 19 => v & 0x80000 != 0
      case 20 => v & 0x100000 != 0
      case 21 => v & 0x200000 != 0
      case 22 => v & 0x400000 != 0
      case _ => v & 0x800000 != 0
    }

    predicate Bit3(i: nat) {
      match i
      case 24 => v & 0x1000000 != 0
      case 25 => v & 0x2000000 != 0
      case 26 => v & 0x4000000 != 0
      case 27 => v & 0x8000000 != 0
      case 28 => v & 0x10000000 != 0
      case 29 => v & 0x20000000 != 0
      case 30 => v & 0x40000000 != 0
      case _ => v & 0x80000000 != 0
    }

    predicate Bit(i: nat) {
      if i < 8 then Bit0(i) else if i < 16 then Bit1(i) else if i < 24 then Bit2(i) else Bit3(i)
    }

    function Bits(): (w: Bits)
      ensures |w| == 32
    {
      seq(32, i requires 0 <= i < 32 => Bit(i))
    }

    /** Division by the polynomial on the machine word. */
    function Shift(): Word {
      if Bit(0) then Half().Plus(POLYNOMIAL) else Half()
    }

    function Shift8(): Word { Shift().Shift().Shift().Shift().Shift().Shift().Shift().Shift() }
  }

  /** One division step: the last bit is shifted out, and the polynomial subtracted if it was set. */
  function Divide(r: Bits): (d: Bits)
    requires |r| == 32
    ensures |d| == 32
  {
    var h := r[1..] + [false];
    if r[0] then Xor(h, POLYNOMIAL.Bits()) else h
  }

  function Divides(r: Bits, n: nat): (d: Bits)
    requires |r| == 32
    ensures |d| == 32
    decreases n
  {
    if n == 0 then r else Divides(Divide(r), n - 1)
  }

  // ----- the bit-serial CRC -----

  /** Feeding a message bit by bit into the register. */
  function Feed(r: Bits, message: Bits): (d: Bits)
    requires |r| == 32
    ensures |d| == 32
    decreases |message|
  {
    if message == [] then r else Feed(Divide(r[0 := r[0] != message[0]]), message[1..])
  }

  function ByteBits(b: bv8): Bits {
    Word(b as bv32).Bits()[..8]
  }

  /** The bits of a message, least significant bit of each byte first. */
  function MessageBits(m: seq<bv8>): (s: Bits)
    ensures |s| == 8 * |m|
  {
    if m == [] then [] else ByteBits(m[0]) + MessageBits(m[1..])
  }

  // ----- division -----

  lemma DivideIsLinear(a: Bits, b: Bits)
    requires |a| == |b| == 32
    ensures Divide(Xor(a, b)) == Xor(Divide(a), Divide(b))
  {}

  lemma {:induction false} DividesIsLinear(a: Bits, b: Bits, n: nat)
    requires |a| == |b| == 32
    ensures Divides(Xor(a, b), n) == Xor(Divides(a, n), Divides(b, n))
    decreases n
  {
    if n > 0 {
      DivideIsLinear(a, b);
      DividesIsLinear(Divide(a), Divide(b), n - 1);
    }
  }

  /** The highest coefficient of the polynomial is set, so nothing is lost in a step. */
  lemma DivideIsInjective(a: Bits, b: Bits)
    requires |a| == |b| == 32 && Divide(a) == Divide(b)
    ensures a == b
  {
    assert POLYNOMIAL.Bits()[31];
    assert Divide(a)[31] == a[0] && Divide(b)[31] == b[0];
    forall i | 0 < i < 32 ensures a[i] == b[i] {
      assert Divide(a)[i - 1] == (a[i] != (a[0] && POLYNOMIAL.Bits()[i - 1]));
      assert Divide(b)[i - 1] == (b[i] != (b[0] && POLYNOMIAL.Bits()[i - 1]));
    }
  }

  lemma {:induction false} DividesIsInjective(a: Bits, b: Bits, n: nat)
    requires |a| == |b| == 32 && Divides(a, n) == Divides(b, n)
    ensures a == b
    decreases n
  {
    if n > 0 {
      DividesIsInjective(Divide(a), Divide(b), n - 1);
      DivideIsInjective(a, b);
    }
  }

  /** Bits that are all zero are shifted out without a subtraction. */
  lemma {:induction false} DividesZeros(v: Bits, n: nat)
    requires n + |v| == 32
    ensures Divides(Zeros(n) + v, n) == v + Zeros(n)
  {
    DividesZerosMore(v, n, 0);
    assert Zeros(n) + v + Zeros(0) == Zeros(n) + v;
  }

  lemma {:induction false} DividesZerosMore(v: Bits, n: nat, k: nat)
    requires n + |v| + k == 32
    ensures Divides(Zeros(n) + v + Zeros(k), n) == v + Zeros(n + k)
    decreases n
  {
    if n > 0 {
      assert (Zeros(n) + v + Zeros(k))[1..] + [false] == Zeros(n - 1) + v + Zeros(k + 1);
      DividesZerosMore(v, n - 1, k + 1);
    } else {
      assert Zeros(0) + v + Zeros(k) == v + Zeros(k);
    }
  }

  /** Feeding up to 32 bits one by one is adding them all at once and then dividing. */
  lemma {:induction false} FeedAtOnce(r: Bits, m: Bits)
    requires |r| == 32 && |m| <= 32
    ensures Feed(r, m) == Divides(Xor(r, m + Zeros(32 - |m|)), |m|)
    decreases |m|
  {
    if m == [] {
      assert Xor(r, m + Zeros(32)) == r;
    } else {
      var r', rest := r[0 := r[0] != m[0]], m[1..];
      var later := [false] + rest + Zeros(32 - |m|);
      FeedAtOnce(Divide(r'), rest);
      DivideIsLinear(r', later);
      assert Divide(later) == rest + Zeros(32 - |rest|);
      assert Xor(r', later) == Xor(r, m + Zeros(32 - |m|));
    }
  }

  // ----- messages -----

  lemma {:induction false} FeedConcat(r: Bits, a: Bits, b: Bits)
    requires |r| == 32
    ensures Feed(r, a + b) == Feed(Feed(r, a), b)
    decreases |a|
  {
    if a == [] {
      assert a + b == b;
    } else {
      assert (a + b)[1..] == a[1..] + b;
      FeedConcat(Divide(r[0 := r[0] != a[0]]), a[1..], b);
    }
  }

  lemma {:induction false} FeedIsInjective(r: Bits, s: Bits, m: Bits)
    requires |r| == |s| == 32 && Feed(r, m) == Feed(s, m)
    ensures r == s
    decreases |m|
  {
    if m != [] {
      var r', s' := r[0 := r[0] != m[0]], s[0 := s[0] != m[0]];
      FeedIsInjective(Divide(r'), Divide(s'), m[1..]);
      DivideIsInjective(r', s');
      assert r == r'[0 := r'[0] != m[0]] && s == s'[0 := s'[0] != m[0]];
    }
  }

  lemma WindowIsInjective(s: Bits, w: Bits, w': Bits)
    requires |s| == 32 && |w| == |w'| <= 32 && Feed(s, w) == Feed(s, w')
    ensures w == w'
  {
    FeedAtOnce(s, w);
    FeedAtOnce(s, w');
    var p, p' := w + Zeros(32 - |w|), w' + Zeros(32 - |w|);
    DividesIsInjective(Xor(s, p), Xor(s, p'), |w|);
    forall i | 0 <= i < |w| ensures w[i] == w'[i] {
      assert Xor(s, p)[i] == (s[i] != w[i]) && Xor(s, p')[i] == (s[i] != w'[i]);
    }
  }

  /** Messages that differ only inside a window of 32 bits have different remainders. */
  lemma BurstIsDetected(r: Bits, before: Bits, w: Bits, w': Bits, after: Bits)
    requires |r| == 32 && |w| == |w'| <= 32 && Feed(r, before + w + after) == Feed(r, before + w' + after)
    ensures w == w'
  {
    FeedConcat(r, before + w, after);
    FeedConcat(r, before + w', after);
    FeedConcat(r, before, w);
    FeedConcat(r, before, w');
    var s := Feed(r, before);
    FeedIsInjective(Feed(s, w), Feed(s, w'), after);
    WindowIsInjective(s, w, w');
  }

  // ----- the bits of a word -----

  predicate Adds(x: bv32, y: bv32, z: bv32, m: bv32) {
    (z & m != 0) == ((x & m != 0) != (y & m != 0))
  }

  /** z is x plus y, bit by bit, in one of the four bytes. */
  predicate Bitwise0(x: Word, y: Word, z: Word) {
    && Adds(x.v, y.v, z.v, 0x1) && Adds(x.v, y.v, z.v, 0x2) && Adds(x.v, y.v, z.v, 0x4) && Adds(x.v, y.v, z.v, 0x8)
    && Adds(x.v, y.v, z.v, 0x10) && Adds(x.v, y.v, z.v, 0x20) && Adds(x.v, y.v, z.v, 0x40) && Adds(x.v, y.v, z.v, 0x80)
  }

  predicate Bitwise1(x: Word, y: Word, z: Word) {
    && Adds(x.v, y.v, z.v, 0x100) && Adds(x.v, y.v, z.v, 0x200) && Adds(x.v, y.v, z.v, 0x400) && Adds(x.v, y.v, z.v, 0x800)
    && Adds(x.v, y.v, z.v, 0x1000) && Adds(x.v, y.v, z.v, 0x2000) && Adds(x.v, y.v, z.v, 0x4000) && Adds(x.v, y.v, z.v, 0x8000)
  }

  predicate Bitwise2(x: Word, y: Word, z: Word) {
    && Adds(x.v, y.v, z.v, 0x10000) && Adds(x.v, y.v, z.v, 0x20000) && Adds(x.v, y.v, z.v, 0x40000) && Adds(x.v, y.v, z.v, 0x80000)
    && Adds(x.v, y.v, z.v, 0x100000) && Adds(x.v, y.v, z.v, 0x200000) && Adds(x.v, y.v, z.v, 0x400000) && Adds(x.v, y.v, z.v, 0x800000)
  }

  predicate Bitwise3(x: Word, y: Word, z: Word) {
    && Adds(x.v, y.v, z.v, 0x1000000) && Adds(x.v, y.v, z.v, 0x2000000) && Adds(x.v, y.v, z.v, 0x4000000) && Adds(x.v, y.v, z.v, 0x8000000)
    && Adds(x.v, y.v, z.v, 0x10000000) && Adds(x.v, y.v, z.v, 0x20000000) && Adds(x.v, y.v, z.v, 0x40000000) && Adds(x.v, y.v, z.v, 0x80000000)
  }

  lemma XorIsBitwise(x: Word, y: Word, z: Word)
    requires z.v == x.v ^ y.v
    ensures Bitwise0(x, y, z) && Bitwise1(x, y, z) && Bitwise2(x, y, z) && Bitwise3(x, y, z)
  {}

  lemma ByteAdds0(x: Word, y: Word, z: Word, i: nat)
    requires Bitwise0(x, y, z) && 0 <= i < 8
    ensures z.Bit(i) == (x.Bit(i) != y.Bit(i))
  {
    if i == 0 {} else if i == 1 {} else if i == 2 {} else if i == 3 {} else if i == 4 {} else if i == 5 {} else if i == 6 {} else {}
  }

  lemma ByteAdds1(x: Word, y: Word, z: Word, i: nat)
    requires Bitwise1(x, y, z) && 8 <= i < 16
    ensures z.Bit(i) == (x.Bit(i) != y.Bit(i))
  {
    if i == 8 {} else if i == 9 {} else if i == 10 {} else if i == 11 {} else if i == 12 {} else if i == 13 {} else if i == 14 {} else {}
  }

  lemma ByteAdds2(x: Word, y: Word, z: Word, i: nat)
    requires Bitwise2(x, y, z) && 16 <= i < 24
    ensures z.Bit(i) == (x.Bit(i) != y.Bit(i))
  {
    if i == 16 {} else if i == 17 {} else if i == 18 {} else if i == 19 {} else if i == 20 {} else if i == 21 {} else if i == 22 {} else {}
  }

  lemma ByteAdds3(x: Word, y: Word, z: Word, i: nat)
    requires Bitwise3(x, y, z) && 24 <= i < 32
    ensures z.Bit(i) == (x.Bit(i) != y.Bit(i))
  {
    if i == 24 {} else if i == 25 {} else if i == 26 {} else if i == 27 {} else if i == 28 {} else if i == 29 {} else if i == 30 {} else {}
  }

  lemma PlusBits(x: Word, y: Word)
    ensures x.Plus(y).Bits() == Xor(x.Bits(), y.Bits())
  {
    var z := x.Plus(y);
    XorIsBitwise(x, y, z);
    forall i: nat | i < 32 ensures z.Bit(i) == (x.Bit(i) != y.Bit(i)) {
      if i < 8 { ByteAdds0(x, y, z, i); } else if i < 16 { ByteAdds1(x, y, z, i); }
      else if i < 24 { ByteAdds2(x, y, z, i); } else { ByteAdds3(x, y, z, i); }
    }
  }

  lemma HalfByte0(x: Word, i: nat)
    requires 0 <= i < 8
    ensures x.Half().Bit(i) == (i < 31 && x.Bit(i + 1))
  {
    if i == 0 {} else if i == 1 {} else if i == 2 {} else if i == 3 {} else if i == 4 {} else if i == 5 {} else if i == 6 {} else {}
  }

  lemma HalfByte1(x: Word, i: nat)
    requires 8 <= i < 16
    ensures x.Half().Bit(i) == (i < 31 && x.Bit(i + 1))
  {
    if i == 8 {} else if i == 9 {} else if i == 10 {} else if i == 11 {} else if i == 12 {} else if i == 13 {} else if i == 14 {} else {}
  }

  lemma HalfByte2(x: Word, i: nat)
    requires 16 <= i < 24
    ensures x.Half().Bit(i) == (i < 31 && x.Bit(i + 1))
  {
    if i == 16 {} else if i == 17 {} else if i == 18 {} else if i == 19 {} else if i == 20 {} else if i == 21 {} else if i == 22 {} else {}
  }

  lemma HalfByte3(x: Word, i: nat)
    requires 24 <= i < 32
    ensures x.Half().Bit(i) == (i < 31 && x.Bit(i + 1))
  {
    if i == 24 {} else if i == 25 {} else if i == 26 {} else if i == 27 {} else if i == 28 {} else if i == 29 {} else if i == 30 {} else {}
  }

  lemma HalfBits(x: Word)
    ensures x.Half().Bits() == x.Bits()[1..] + [false]
  {
    var g, h := x.Half().Bits(), x.Bits()[1..] + [false];
    forall i: nat | i < 32 ensures g[i] == h[i] {
      if i < 8 { HalfByte0(x, i); } else if i < 16 { HalfByte1(x, i); }
      else if i < 24 { HalfByte2(x, i); } else { HalfByte3(x, i); }
    }
  }

  lemma ShiftDivides(x: Word)
    ensures x.Shift().Bits() == Divide(x.Bits())
  {
    HalfBits(x);
    PlusBits(x.Half(), POLYNOMIAL);
  }

  lemma Shift8Divides(x: Word)
    ensures x.Shift8().Bits() == Divides(x.Bits(), 8)
  {
    var x1 := x.Shift();
    var x2 := x1.Shift();
    var x3 := x2.Shift();
    var x4 := x3.Shift();
    var x5 := x4.Shift();
    var x6 := x5.Shift();
    var x7 := x6.Shift();
    ShiftDivides(x);
    ShiftDivides(x1);
    ShiftDivides(x2);
    ShiftDivides(x3);
    ShiftDivides(x4);
    ShiftDivides(x5);
    ShiftDivides(x6);
    ShiftDivides(x7);
    assert Divides(x.Bits(), 8) == Divides(x1.Bits(), 7) == Divides(x2.Bits(), 6) == Divides(x3.Bits(), 5);
    assert Divides(x3.Bits(), 5) == Divides(x4.Bits(), 4) == Divides(x5.Bits(), 3) == Divides(x6.Bits(), 2);
    assert Divides(x6.Bits(), 2) == Divides(x7.Bits(), 1) == Divides(x7.Shift().Bits(), 0);
  }

  // ----- the table -----

  lemma Values0()
    ensures ROW_0 == [
              Word(0x00).Shift8().v, Word(0x01).Shift8().v, Word(0x02).Shift8().v, Word(0x03).Shift8().v, Word(0x04).Shift8().v, Word(0x05).Shift8().v, Word(0x06).Shift8().v, Word(0x07).Shift8().v,
              Word(0x08).Shift8().v, Word(0x09).Shift8().v, Word(0x0A).Shift8().v, Word(0x0B).Shift8().v, Word(0x0C).Shift8().v, Word(0x0D).Shift8().v, Word(0x0E).Shift8().v, Word(0x0F).Shift8().v]
  {}

  lemma Row0(i: bv8)
    requires 0x00 <= i <= 0x0F
    ensures Entry(i) == Word(i as bv32).Shift8()
  {
    Values0();
    assert CRC32_TAB[0] == ROW_0 && i as int / 16 == 0;
  }

  lemma Values1()
    ensures ROW_1 == [
              Word(0x10).Shift8().v, Word(0x11).Shift8().v, Word(0x12).Shift8().v, Word(0x13).Shift8().v, Word(0x14).Shift8().v, Word(0x15).Shift8().v, Word(0x16).Shift8().v, Word(0x17).Shift8().v,
              Word(0x18).Shift8().v, Word(0x19).Shift8().v, Word(0x1A).Shift8().v, Word(0x1B).Shift8().v, Word(0x1C).Shift8().v, Word(0x1D).Shift8().v, Word(0x1E).Shift8().v, Word(0x1F).Shift8().v]
  {}

  lemma Row1(i: bv8)
    requires 0x10 <= i <= 0x1F
    ensures Entry(i) == Word(i as bv32).Shift8()
  {
    Values1();
    assert CRC32_TAB[1] == ROW_1 && i as int / 16 == 1;
  }

  lemma Values2()
    ensures ROW_2 == [
              Word(0x20).Shift8().v, Word(0x21).Shift8().v, Word(0x22).Shift8().v, Word(0x23).Shift8().v, Word(0x24).Shift8().v, Word(0x25).Shift8().v, Word(0x26).Shift8().v, Word(0x27).Shift8().v,
              Word(0x28).Shift8().v, Word(0x29).Shift8().v, Word(0x2A).Shift8().v, Word(0x2B).Shift8().v, Word(0x2C).Shift8().v, Word(0x2D).Shift8().v, Word(0x2E).Shift8().v, Word(0x2F).Shift8().v]
  {}

  lemma Row2(i: bv8)
    requires 0x20 <= i <= 0x2F
    ensures Entry(i) == Word(i as bv32).Shift8()
  {
    Values2();
    assert CRC32_TAB[2] == ROW_2 && i as int / 16 == 2;
  }

  lemma Values3()
    ensures ROW_3 == [
              Word(0x30).Shift8().v, Word(0x31).Shift8().v, Word(0x32).Shift8().v, Word(0x33).Shift8().v, Word(0x34).Shift8().v, Word(0x35).Shift8().v, Word(0x36).Shift8().v, Word(0x37).Shift8().v,
              Word(0x38).Shift8().v, Word(0x39).Shift8().v, Word(0x3A).Shift8().v, Word(0x3B).Shift8().v, Word(0x3C).Shift8().v, Word(0x3D).Shift8().v, Word(0x3E).Shift8().v, Word(0x3F).Shift8().v]
  {}

  lemma Row3(i: bv8)
    requires 0x30 <= i <= 0x3F
    ensures Entry(i) == Word(i as bv32).Shift8()
  {
    Values3();
    assert CRC32_TAB[3] == ROW_3 && i as int / 16 == 3;
  }

  lemma Values4()
    ensures ROW_4 == [
              Word(0x40).Shift8().v, Word(0x41).Shift8().v, Word(0x42).Shift8().v, Word(0x43).Shift8().v, Word(0x44).Shift8().v, Word(0x45).Shift8().v, Word(0x46).Shift8().v, Word(0x47).Shift8().v,
              Word(0x48).Shift8().v, Word(0x49).Shift8().v, Word(0x4A).Shift8().v, Word(0x4B).Shift8().v, Word(0x4C).Shift8().v, Word(0x4D).Shift8().v, Word(0x4E).Shift8().v, Word(0x4F).Shift8().v]
  {}

  lemma Row4(i: bv8)
    requires 0x40 <= i <= 0x4F
    ensures Entry(i) == Word(i as bv32).Shift8()
  {
    Values4();
    assert CRC32_TAB[4] == ROW_4 && i as int / 16 == 4;
  }

  lemma Values5()
    ensures ROW_5 == [
              Word(0x50).Shift8().v, Word(0x51).Shift8().v, Word(0x52).Shift8().v, Word(0x53).Shift8().v, Word(0x54).Shift8().v, Word(0x55).Shift8().v, Word(0x56).Shift8().v, Word(0x57).Shift8().v,
              Word(0x58).Shift8().v, Word(0x59).Shift8().v, Word(0x5A).Shift8().v, Word(0x5B).Shift8().v, Word(0x5C).Shift8().v, Word(0x5D).Shift8().v, Word(0x5E).Shift8().v, Word(0x5F).Shift8().v]
  {}

  lemma Row5(i: bv8)
    requires 0x50 <= i <= 0x5F
    ensures Entry(i) == Word(i as bv32).Shift8()
  {
    Values5();
    assert CRC32_TAB[5] == ROW_5 && i as int / 16 == 5;
  }

  lemma Values6()
    ensures ROW_6 == [
              Word(0x60).Shift8().v, Word(0x61).Shift8().v, Word(0x62).Shift8().v, Word(0x63).Shift8().v, Word(0x64).Shift8().v, Word(0x65).Shift8().v, Word(0x66).Shift8().v, Word(0x67).Shift8().v,
              Word(0x68).Shift8().v, Word(0x69).Shift8().v, Word(0x6A).Shift8().v, Word(0x6B).Shift8().v, Word(0x6C).Shift8().v, Word(0x6D).Shift8().v, Word(0x6E).Shift8().v, Word(0x6F).Shift8().v]
  {}

  lemma Row6(i: bv8)
    requires 0x60 <= i <= 0x6F
    ensures Entry(i) == Word(i as bv32).Shift8()
  {
    Values6();
    assert CRC32_TAB[6] == ROW_6 && i as int / 16 == 6;
  }

  lemma Values7()
    ensures ROW_7 == [
              Word(0x70).Shift8().v, Word(0x71).Shift8().v, Word(0x72).Shift8().v, Word(0x73).Shift8().v, Word(0x74).Shift8().v, Word(0x75).Shift8().v, Word(0x76).Shift8().v, Word(0x77).Shift8().v,
              Word(0x78).Shift8().v, Word(0x79).Shift8().v, Word(0x7A).Shift8().v, Word(0x7B).Shift8().v, Word(0x7C).Shift8().v, Word(0x7D).Shift8().v, Word(0x7E).Shift8().v, Word(0x7F).Shift8().v]
  {}

  lemma Row7(i: bv8)
    requires 0x70 <= i <= 0x7F
    ensures Entry(i) == Word(i as bv32).Shift8()
  {
    Values7();
    assert CRC32_TAB[7] == ROW_7 && i as int / 16 == 7;
  }

  lemma Values8()
    ensures ROW_8 == [
              Word(0x80).Shift8().v, Word(0x81).Shift8().v, Word(0x82).Shift8().v, Word(0x83).Shift8().v, Word(0x84).Shift8().v, Word(0x85).Shift8().v, Word(0x86).Shift8().v, Word(0x87).Shift8().v,
              Word(0x88).Shift8().v, Word(0x89).Shift8().v, Word(0x8A).Shift8().v, Word(0x8B).Shift8().v, Word(0x8C).Shift8().v, Word(0x8D).Shift8().v, Word(0x8E).Shift8().v, Word(0x8F).Shift8().v]
  {}

  lemma Row8(i: bv8)
    requires 0x80 <= i <= 0x8F
    ensures Entry(i) == Word(i as bv32).Shift8()
  {
    Values8();
    assert CRC32_TAB[8] == ROW_8 && i as int / 16 == 8;
  }

  lemma Values9()
    ensures ROW_9 == [
              Word(0x90).Shift8().v, Word(0x91).Shift8().v, Word(0x92).Shift8().v, Word(0x93).Shift8().v, Word(0x94).Shift8().v, Word(0x95).Shift8().v, Word(0x96).Shift8().v, Word(0x97).Shift8().v,
              Word(0x98).Shift8().v, Word(0x99).Shift8().v, Word(0x9A).Shift8().v, Word(0x9B).Shift8().v, Word(0x9C).Shift8().v, Word(0x9D).Shift8().v, Word(0x9E).Shift8().v, Word(0x9F).Shift8().v]
  {}

  lemma Row9(i: bv8)
    requires 0x90 <= i <= 0x9F
    ensures Entry(i) == Word(i as bv32).Shift8()
  {
    Values9();
    assert CRC32_TAB[9] == ROW_9 && i as int / 16 == 9;
  }

  lemma ValuesA()
    ensures ROW_A == [
              Word(0xA0).Shift8().v, Word(0xA1).Shift8().v, Word(0xA2).Shift8().v, Word(0xA3).Shift8().v, Word(0xA4).Shift8().v, Word(0xA5).Shift8().v, Word(0xA6).Shift8().v, Word(0xA7).Shift8().v,
              Word(0xA8).Shift8().v, Word(0xA9).Shift8().v, Word(0xAA).Shift8().v, Word(0xAB).Shift8().v, Word(0xAC).Shift8().v, Word(0xAD).Shift8().v, Word(0xAE).Shift8().v, Word(0xAF).Shift8().v]
  {}

  lemma RowA(i: bv8)
    requires 0xA0 <= i <= 0xAF
    ensures Entry(i) == Word(i as bv32).Shift8()
  {
    ValuesA();
    assert CRC32_TAB[10] == ROW_A && i as int / 16 == 10;
  }

  lemma ValuesB()
    ensures ROW_B == [
              Word(0xB0).Shift8().v, Word(0xB1).Shift8().v, Word(0xB2).Shift8().v, Word(0xB3).Shift8().v, Word(0xB4).Shift8().v, Word(0xB5).Shift8().v, Word(0xB6).Shift8().v, Word(0xB7).Shift8().v,
              Word(0xB8).Shift8().v, Word(0xB9).Shift8().v, Word(0xBA).Shift8().v, Word(0xBB).Shift8().v, Word(0xBC).Shift8().v, Word(0xBD).Shift8().v, Word(0xBE).Shift8().v, Word(0xBF).Shift8().v]
  {}

  lemma RowB(i: bv8)
    requires 0xB0 <= i <= 0xBF
    ensures Entry(i) == Word(i as bv32).Shift8()
  {
    ValuesB();
    assert CRC32_TAB[11] == ROW_B && i as int / 16 == 11;
  }

  lemma ValuesC()
    ensures ROW_C == [
              Word(0xC0).Shift8().v, Word(0xC1).Shift8().v, Word(0xC2).Shift8().v, Word(0xC3).Shift8().v, Word(0xC4).Shift8().v, Word(0xC5).Shift8().v, Word(0xC6).Shift8().v, Word(0xC7).Shift8().v,
              Word(0xC8).Shift8().v, Word(0xC9).Shift8().v, Word(0xCA).Shift8().v, Word(0xCB).Shift8().v, Word(0xCC).Shift8().v, Word(0xCD).Shift8().v, Word(0xCE).Shift8().v, Word(0xCF).Shift8().v]
  {}

  lemma RowC(i: bv8)
    requires 0xC0 <= i <= 0xCF
    ensures Entry(i) == Word(i as bv32).Shift8()
  {
    ValuesC();
    assert CRC32_TAB[12] == ROW_C && i as int / 16 == 12;
  }

  lemma ValuesD()
    ensures ROW_D == [
              Word(0xD0).Shift8().v, Word(0xD1).Shift8().v, Word(0xD2).Shift8().v, Word(0xD3).Shift8().v, Word(0xD4).Shift8().v, Word(0xD5).Shift8().v, Word(0xD6).Shift8().v, Word(0xD7).Shift8().v,
              Word(0xD8).Shift8().v, Word(0xD9).Shift8().v, Word(0xDA).Shift8().v, Word(0xDB).Shift8().v, Word(0xDC).Shift8().v, Word(0xDD).Shift8().v, Word(0xDE).Shift8().v, Word(0xDF).Shift8().v]
  {}

  lemma RowD(i: bv8)
    requires 0xD0 <= i <= 0xDF
    ensures Entry(i) == Word(i as bv32).Shift8()
  {
    ValuesD();
    assert CRC32_TAB[13] == ROW_D && i as int / 16 == 13;
  }

  lemma ValuesE()
    ensures ROW_E == [
              Word(0xE0).Shift8().v, Word(0xE1).Shift8().v, Word(0xE2).Shift8().v, Word(0xE3).Shift8().v, Word(0xE4).Shift8().v, Word(0xE5).Shift8().v, Word(0xE6).Shift8().v, Word(0xE7).Shift8().v,
              Word(0xE8).Shift8().v, Word(0xE9).Shift8().v, Word(0xEA).Shift8().v, Word(0xEB).Shift8().v, Word(0xEC).Shift8().v, Word(0xED).Shift8().v, Word(0xEE).Shift8().v, Word(0xEF).Shift8().v]
  {}

  lemma RowE(i: bv8)
    requires 0xE0 <= i <= 0xEF
    ensures Entry(i) == Word(i as bv32).Shift8()
  {
    ValuesE();
    assert CRC32_TAB[14] == ROW_E && i as int / 16 == 14;
  }

  lemma ValuesF()
    ensures ROW_F == [
              Word(0xF0).Shift8().v, Word(0xF1).Shift8().v, Word(0xF2).Shift8().v, Word(0xF3).Shift8().v, Word(0xF4).Shift8().v, Word(0xF5).Shift8().v, Word(0xF6).Shift8().v, Word(0xF7).Shift8().v,
              Word(0xF8).Shift8().v, Word(0xF9).Shift8().v, Word(0xFA).Shift8().v, Word(0xFB).Shift8().v, Word(0xFC).Shift8().v, Word(0xFD).Shift8().v, Word(0xFE).Shift8().v, Word(0xFF).Shift8().v]
  {}

  lemma RowF(i: bv8)
    requires 0xF0 <= i <= 0xFF
    ensures Entry(i) == Word(i as bv32).Shift8()
  {
    ValuesF();
    assert CRC32_TAB[15] == ROW_F && i as int / 16 == 15;
  }

  /** Every entry of the table is eight divisions of its index. */
  lemma EntryIsShift8(i: bv8)
    ensures Entry(i) == Word(i as bv32).Shift8()
  {
    if i <= 0x0F { Row0(i); } else if i <= 0x1F { Row1(i); } else if i <= 0x2F { Row2(i); } else if i <= 0x3F { Row3(i); }
    else if i <= 0x4F { Row4(i); } else if i <= 0x5F { Row5(i); } else if i <= 0x6F { Row6(i); } else if i <= 0x7F { Row7(i); }
    else if i <= 0x8F { Row8(i); } else if i <= 0x9F { Row9(i); } else if i <= 0xAF { RowA(i); } else if i <= 0xBF { RowB(i); }
    else if i <= 0xCF { RowC(i); } else if i <= 0xDF { RowD(i); } else if i <= 0xEF { RowE(i); } else { RowF(i); }
  }

  // ----- one step of the loop -----

  lemma LowByte0(x: Word, y: Word, i: nat)
    requires y.v == x.v & 0xff && 0 <= i < 8
    ensures y.Bit(i) == (i < 8 && x.Bit(i))
  {
    if i == 0 {} else if i == 1 {} else if i == 2 {} else if i == 3 {} else if i == 4 {} else if i == 5 {} else if i == 6 {} else {}
  }

  lemma LowByte1(x: Word, y: Word, i: nat)
    requires y.v == x.v & 0xff && 8 <= i < 16
    ensures y.Bit(i) == (i < 8 && x.Bit(i))
  {
    if i == 8 {} else if i == 9 {} else if i == 10 {} else if i == 11 {} else if i == 12 {} else if i == 13 {} else if i == 14 {} else {}
  }

  lemma LowByte2(x: Word, y: Word, i: nat)
    requires y.v == x.v & 0xff && 16 <= i < 24
    ensures y.Bit(i) == (i < 8 && x.Bit(i))
  {
    if i == 16 {} else if i == 17 {} else if i == 18 {} else if i == 19 {} else if i == 20 {} else if i == 21 {} else if i == 22 {} else {}
  }

  lemma LowByte3(x: Word, y: Word, i: nat)
    requires y.v == x.v & 0xff && 24 <= i < 32
    ensures y.Bit(i) == (i < 8 && x.Bit(i))
  {
    if i == 24 {} else if i == 25 {} else if i == 26 {} else if i == 27 {} else if i == 28 {} else if i == 29 {} else if i == 30 {} else {}
  }

  lemma LowBits(x: Word, y: Word)
    requires y.v == x.v & 0xff
    ensures y.Bits() == x.Bits()[..8] + Zeros(24)
  {
    var g, h := y.Bits(), x.Bits()[..8] + Zeros(24);
    forall i: nat | i < 32 ensures g[i] == h[i] {
      if i < 8 { LowByte0(x, y, i); } else if i < 16 { LowByte1(x, y, i); }
      else if i < 24 { LowByte2(x, y, i); } else { LowByte3(x, y, i); }
    }
  }

  /** c >> 8 */
  function Half8(x: Word): Word {
    x.Half().Half().Half().Half().Half().Half().Half().Half()
  }

  lemma Half8IsShift(x: Word)
    ensures Half8(x) == x.HighBytes()
  {}

  lemma HalfBitsMore(x: Word, h: Word, w: Bits, n: nat)
    requires |w| + n == 32 && w != [] && x.Bits() == w + Zeros(n) && h == x.Half()
    ensures h.Bits() == w[1..] + Zeros(n + 1)
  {
    HalfBits(x);
    assert (w + Zeros(n))[1..] + [false] == w[1..] + Zeros(n + 1);
  }

  lemma Half8Bits(x: Word)
    ensures Half8(x).Bits() == x.Bits()[8..] + Zeros(8)
  {
    var w := x.Bits();
    assert w == w + Zeros(0);
    var x1 := x.Half();
    var x2 := x1.Half();
    var x3 := x2.Half();
    var x4 := x3.Half();
    var x5 := x4.Half();
    var x6 := x5.Half();
    var x7 := x6.Half();
    HalfBitsMore(x, x1, w, 0);
    HalfBitsMore(x1, x2, w[1..], 1);
    HalfBitsMore(x2, x3, w[2..], 2);
    HalfBitsMore(x3, x4, w[3..], 3);
    HalfBitsMore(x4, x5, w[4..], 4);
    HalfBitsMore(x5, x6, w[5..], 5);
    HalfBitsMore(x6, x7, w[6..], 6);
    HalfBitsMore(x7, x7.Half(), w[7..], 7);
  }

  lemma LowByteIsLow(x: Word, low: Word)
    requires low == Word(x.LowByte() as bv32)
    ensures low.v == x.v & 0xff
  {}

  /** Eight divisions are a look-up of the low byte and a shift of the others. */
  lemma ByTable(x: Word)
    ensures Divides(x.Bits(), 8) == Entry(x.LowByte()).Plus(x.HighBytes()).Bits()
  {
    var low := Word(x.LowByte() as bv32);
    var w := x.Bits();
    var high := Zeros(8) + w[8..];
    LowByteIsLow(x, low);
    LowBits(x, low);
    assert w == Xor(low.Bits(), high);
    DividesIsLinear(low.Bits(), high, 8);
    Shift8Divides(low);
    DividesZeros(w[8..], 8);
    Half8Bits(x);
    Half8IsShift(x);
    EntryIsShift8(x.LowByte());
    PlusBits(low.Shift8(), x.HighBytes());
  }

  lemma ByteIsLow(y: Word)
    requires y.v <= 0xff
    ensures y.v == y.v & 0xff
  {}

  lemma SameHighBytes(c: Word, y: Word)
    requires y.v <= 0xff
    ensures c.Plus(y).HighBytes() == c.HighBytes()
  {}

  /** The step of the loop feeds the eight bits of a byte. */
  lemma TableStep(c: Word, b: bv8, y: Word)
    requires y.v == b as bv32
    ensures Entry(c.Plus(y).LowByte()).Plus(c.HighBytes()).Bits() == Feed(c.Bits(), ByteBits(b))
  {
    ByteIsLow(y);
    LowBits(y, y);
    FeedAtOnce(c.Bits(), ByteBits(b));
    PlusBits(c, y);
    ByTable(c.Plus(y));
    SameHighBytes(c, y);
  }

  // ----- std_crc32 -----

  function Ones(): Bits {
    seq(32, i => true)
  }

  /** The CRC of a message, continued from an earlier one: register and result are complemented. */
  function SerialCrc(crc: Bits, m: seq<bv8>): Bits
    requires |crc| == 32
  {
    Xor(Feed(Xor(crc, Ones()), MessageBits(m)), Ones())
  }

  lemma Complement(x: Word)
    ensures x.Plus(Word(0xffffffff)).Bits() == Xor(x.Bits(), Ones())
  {
    PlusBits(x, Word(0xffffffff));
    AllOnes();
  }

  lemma AllOnes()
    ensures Word(0xffffffff).Bits() == Ones()
  {
    forall i: nat | i < 32 ensures Word(0xffffffff).Bit(i) {}
  }

  lemma {:induction false} MessageBitsMore(m: seq<bv8>, b: bv8)
    ensures MessageBits(m + [b]) == MessageBits(m) + ByteBits(b)
    decreases |m|
  {
    if m == [] {
      assert MessageBits([b]) == ByteBits(b) + MessageBits([]);
    } else {
      assert (m + [b])[1..] == m[1..] + [b];
      MessageBitsMore(m[1..], b);
    }
  }

  /** std_crc32 computes the bit-serial CRC of the buffer, for every initial value. */
  method StdCrc32(crc: Word, buf: seq<bv8>) returns (r: Word)
    ensures r.Bits() == SerialCrc(crc.Bits(), buf)
  {
    var c := crc.Plus(Word(0xffffffff));
    ghost var start := c.Bits();
    var p := 0;
    while p < |buf|
      invariant p <= |buf| && c.Bits() == Feed(start, MessageBits(buf[..p]))
    {
      ghost var before := c;
      c := Entry(c.Plus(Word(buf[p] as bv32)).LowByte()).Plus(c.HighBytes());
      OneByteMore(start, before, c, buf[..p], buf[p]);
      assert buf[..p + 1] == buf[..p] + [buf[p]];
      p := p + 1;
    }
    assert buf[..p] == buf;
    r := c.Plus(Word(0xffffffff));
    Complement(crc);
    Complement(c);
  }

  lemma OneByteMore(start: Bits, c: Word, c': Word, done: seq<bv8>, b: bv8)
    requires |start| == 32 && c.Bits() == Feed(start, MessageBits(done))
    requires c' == Entry(c.Plus(Word(b as bv32)).LowByte()).Plus(c.HighBytes())
    ensures c'.Bits() == Feed(start, MessageBits(done + [b]))
  {
    TableStep(c, b, Word(b as bv32));
    MessageBitsMore(done, b);
    FeedConcat(start, MessageBits(done), ByteBits(b));
  }

  // ----- what the CRC promises -----

  lemma {:induction false} MessageBitsConcat(a: seq<bv8>, b: seq<bv8>)
    ensures MessageBits(a + b) == MessageBits(a) + MessageBits(b)
    decreases |a|
  {
    if a == [] {
      assert a + b == b;
    } else {
      assert (a + b)[1..] == a[1..] + b;
      MessageBitsConcat(a[1..], b);
    }
  }

  /** A message may be fed in pieces. */
  lemma CrcComposes(crc: Bits, a: seq<bv8>, b: seq<bv8>)
    requires |crc| == 32
    ensures SerialCrc(SerialCrc(crc, a), b) == SerialCrc(crc, a + b)
  {
    var start := Xor(crc, Ones());
    var mid := Feed(start, MessageBits(a));
    assert Xor(Xor(mid, Ones()), Ones()) == mid;
    MessageBitsConcat(a, b);
    FeedConcat(start, MessageBits(a), MessageBits(b));
  }

  lemma XorOnesIsInjective(a: Bits, b: Bits)
    requires |a| == |b| == 32 && Xor(a, Ones()) == Xor(b, Ones())
    ensures a == b
  {
    forall i | 0 <= i < 32 ensures a[i] == b[i] {
      assert Xor(a, Ones())[i] == (a[i] != true) && Xor(b, Ones())[i] == (b[i] != true);
    }
  }

  lemma {:induction false} MessageBitsIsInjective(a: seq<bv8>, b: seq<bv8>)
    requires |a| == |b| && MessageBits(a) == MessageBits(b)
    ensures a == b
    decreases |a|
  {
    if a != [] {
      assert MessageBits(a)[..8] == ByteBits(a[0]) && MessageBits(b)[..8] == ByteBits(b[0]);
      assert MessageBits(a)[8..] == MessageBits(a[1..]) && MessageBits(b)[8..] == MessageBits(b[1..]);
      SameByte(a[0], b[0]);
      MessageBitsIsInjective(a[1..], b[1..]);
    }
  }

  lemma SameByte(a: bv8, b: bv8)
    requires ByteBits(a) == ByteBits(b)
    ensures a == b
  {
    var x, y := Word(a as bv32), Word(b as bv32);
    forall i: nat | i < 8 ensures x.Bit(i) == y.Bit(i) { assert ByteBits(a)[i] == ByteBits(b)[i]; }
    SameLowBits(a, b, x, y);
  }

  lemma SameLowBits(a: bv8, b: bv8, x: Word, y: Word)
    requires x.v == a as bv32 && y.v == b as bv32
    requires x.Bit(0) == y.Bit(0) && x.Bit(1) == y.Bit(1) && x.Bit(2) == y.Bit(2) && x.Bit(3) == y.Bit(3)
    requires x.Bit(4) == y.Bit(4) && x.Bit(5) == y.Bit(5) && x.Bit(6) == y.Bit(6) && x.Bit(7) == y.Bit(7)
    ensures a == b
  {}

  /** Two messages of the same length that differ only inside four consecutive bytes have different CRCs. */
  lemma FourBytesAreDetected(crc: Bits, before: seq<bv8>, w: seq<bv8>, w': seq<bv8>, after: seq<bv8>)
    requires |crc| == 32 && |w| == |w'| <= 4
    requires SerialCrc(crc, before + w + after) == SerialCrc(crc, before + w' + after)
    ensures w == w'
  {
    var start := Xor(crc, Ones());
    MessageBitsConcat(before + w, after);
    MessageBitsConcat(before, w);
    MessageBitsConcat(before + w', after);
    MessageBitsConcat(before, w');
    XorOnesIsInjective(Feed(start, MessageBits(before + w + after)), Feed(start, MessageBits(before + w' + after)));
    BurstIsDetected(start, MessageBits(before), MessageBits(w), MessageBits(w'), MessageBits(after));
    MessageBitsIsInjective(w, w');
  }

  // ----- the same for the 32-bit results -----

  lemma SameByte0(x: Word, y: Word)
    requires x.Bit(0) == y.Bit(0) && x.Bit(1) == y.Bit(1) && x.Bit(2) == y.Bit(2) && x.Bit(3) == y.Bit(3) &&
             x.Bit(4) == y.Bit(4) && x.Bit(5) == y.Bit(5) && x.Bit(6) == y.Bit(6) && x.Bit(7) == y.Bit(7)
    ensures x.v & 0xff == y.v & 0xff
  {}

  lemma SameByte1(x: Word, y: Word)
    requires x.Bit(8) == y.Bit(8) && x.Bit(9) == y.Bit(9) && x.Bit(10) == y.Bit(10) && x.Bit(11) == y.Bit(11) &&
             x.Bit(12) == y.Bit(12) && x.Bit(13) == y.Bit(13) && x.Bit(14) == y.Bit(14) && x.Bit(15) == y.Bit(15)
    ensures x.v & 0xff00 == y.v & 0xff00
  {}

  lemma SameByte2(x: Word, y: Word)
    requires x.Bit(16) == y.Bit(16) && x.Bit(17) == y.Bit(17) && x.Bit(18) == y.Bit(18) && x.Bit(19) == y.Bit(19) &&
             x.Bit(20) == y.Bit(20) && x.Bit(21) == y.Bit(21) && x.Bit(22) == y.Bit(22) && x.Bit(23) == y.Bit(23)
    ensures x.v & 0xff0000 == y.v & 0xff0000
  {}

  lemma SameByte3(x: Word, y: Word)
    requires x.Bit(24) == y.Bit(24) && x.Bit(25) == y.Bit(25) && x.Bit(26) == y.Bit(26) && x.Bit(27) == y.Bit(27) &&
             x.Bit(28) == y.Bit(28) && x.Bit(29) == y.Bit(29) && x.Bit(30) == y.Bit(30) && x.Bit(31) == y.Bit(31)
    ensures x.v & 0xff000000 == y.v & 0xff000000
  {}

  lemma FourBytes(x: Word, y: Word)
    requires x.v & 0xff == y.v & 0xff && x.v & 0xff00 == y.v & 0xff00
    requires x.v & 0xff0000 == y.v & 0xff0000 && x.v & 0xff000000 == y.v & 0xff000000
    ensures x == y
  {}

  lemma SameBit(x: Word, y: Word, i: nat)
    requires x.Bits() == y.Bits() && i < 32
    ensures x.Bit(i) == y.Bit(i)
  {
    assert x.Bits()[i] == y.Bits()[i];
  }

  lemma WordByte0(x: Word, y: Word)
    requires x.Bits() == y.Bits()
    ensures x.v & 0xff == y.v & 0xff
  {
    SameBit(x, y, 0); SameBit(x, y, 1); SameBit(x, y, 2); SameBit(x, y, 3);
    SameBit(x, y, 4); SameBit(x, y, 5); SameBit(x, y, 6); SameBit(x, y, 7);
    SameByte0(x, y);
  }

  lemma WordByte1(x: Word, y: Word)
    requires x.Bits() == y.Bits()
    ensures x.v & 0xff00 == y.v & 0xff00
  {
    SameBit(x, y, 8); SameBit(x, y, 9); SameBit(x, y, 10); SameBit(x, y, 11);
    SameBit(x, y, 12); SameBit(x, y, 13); SameBit(x, y, 14); SameBit(x, y, 15);
    SameByte1(x, y);
  }

  lemma WordByte2(x: Word, y: Word)
    requires x.Bits() == y.Bits()
    ensures x.v & 0xff0000 == y.v & 0xff0000
  {
    SameBit(x, y, 16); SameBit(x, y, 17); SameBit(x, y, 18); SameBit(x, y, 19);
    SameBit(x, y, 20); SameBit(x, y, 21); SameBit(x, y, 22); SameBit(x, y, 23);
    SameByte2(x, y);
  }

  lemma WordByte3(x: Word, y: Word)
    requires x.Bits() == y.Bits()
    ensures x.v & 0xff000000 == y.v & 0xff000000
  {
    SameBit(x, y, 24); SameBit(x, y, 25); SameBit(x, y, 26); SameBit(x, y, 27);
    SameBit(x, y, 28); SameBit(x, y, 29); SameBit(x, y, 30); SameBit(x, y, 31);
    SameByte3(x, y);
  }

  /** A word is determined by its bits. */
  lemma SameWord(x: Word, y: Word)
    requires x.Bits() == y.Bits()
    ensures x == y
  {
    WordByte0(x, y);
    WordByte1(x, y);
    WordByte2(x, y);
    WordByte3(x, y);
    FourBytes(x, y);
  }

  /** std_crc32 of a buffer in two pieces, the second from the result of the first. */
  method CrcInPieces(crc: Word, a: seq<bv8>, b: seq<bv8>) returns (pieces: Word, whole: Word)
    ensures pieces == whole && whole.Bits() == SerialCrc(crc.Bits(), a + b)
  {
    var first := StdCrc32(crc, a);
    pieces := StdCrc32(first, b);
    whole := StdCrc32(crc, a + b);
    CrcComposes(crc.Bits(), a, b);
    SameWord(pieces, whole);
  }

  /** std_crc32 of two messages that differ inside four consecutive bytes. */
  method CrcOfDamaged(crc: Word, before: seq<bv8>, w: seq<bv8>, w': seq<bv8>, after: seq<bv8>) returns (r: Word, r': Word)
    requires |w| == |w'| <= 4
    ensures r == r' <==> w == w'
    ensures r.Bits() == SerialCrc(crc.Bits(), before + w + after) && r'.Bits() == SerialCrc(crc.Bits(), before + w' + after)
  {
    r := StdCrc32(crc, before + w + after);
    r' := StdCrc32(crc, before + w' + after);
    if r == r' { FourBytesAreDetected(crc.Bits(), before, w, w', after); }
    if w == w' { SameWord(r, r'); }
  }

  // ----- the residue -----

  /** The bytes of a word, low byte first. */
  function Bytes(w: Word): (m: seq<bv8>)
    ensures |m| == 4
  {
    var w1 := w.HighBytes();
    var w2 := w1.HighBytes();
    [w.LowByte(), w1.LowByte(), w2.LowByte(), w2.HighBytes().LowByte()]
  }

  lemma LowByteBits(w: Word)
    ensures ByteBits(w.LowByte()) == w.Bits()[..8]
  {
    var low := Word(w.LowByte() as bv32);
    LowByteIsLow(w, low);
    LowBits(w, low);
  }

  lemma HighBits(w: Word)
    ensures w.HighBytes().Bits() == w.Bits()[8..] + Zeros(8)
  {
    Half8Bits(w);
    Half8IsShift(w);
  }

  lemma FourByteBits(a: bv8, b: bv8, c: bv8, d: bv8)
    ensures MessageBits([a, b, c, d]) == ByteBits(a) + ByteBits(b) + ByteBits(c) + ByteBits(d)
  {
    MessageBitsMore([], a);
    MessageBitsMore([a], b);
    MessageBitsMore([a, b], c);
    MessageBitsMore([a, b, c], d);
    assert [] + [a] == [a] && [a] + [b] == [a, b] && [a, b] + [c] == [a, b, c] && [a, b, c] + [d] == [a, b, c, d];
  }

  lemma BytesBits(w: Word)
    ensures MessageBits(Bytes(w)) == w.Bits()
  {
    var w1 := w.HighBytes();
    var w2 := w1.HighBytes();
    var w3 := w2.HighBytes();
    FourByteBits(w.LowByte(), w1.LowByte(), w2.LowByte(), w3.LowByte());
    LowByteBits(w);
    LowByteBits(w1);
    LowByteBits(w2);
    LowByteBits(w3);
    HighBits(w);
    HighBits(w1);
    HighBits(w2);
  }

  lemma {:induction false} DividesMore(r: Bits, m: nat, n: nat)
    requires |r| == 32
    ensures Divides(r, m + n) == Divides(Divides(r, m), n)
    decreases m
  {
    if m > 0 { DividesMore(Divide(r), m - 1, n); }
  }

  lemma OnesShift()
    ensures Word(0xffffffff).Shift8() == Word(0x2dfd1072) && Word(0x2dfd1072).Shift8() == Word(0xbe26ed00)
    ensures Word(0xbe26ed00).Shift8() == Word(0x00be26ed) && Word(0x00be26ed).Shift8() == Word(0xdebb20e3)
  {}

  lemma OnesDivided()
    ensures Divides(Ones(), 32) == Word(0xdebb20e3).Bits()
  {
    OnesShift();
    AllOnes();
    Shift8Divides(Word(0xffffffff));
    Shift8Divides(Word(0x2dfd1072));
    Shift8Divides(Word(0xbe26ed00));
    Shift8Divides(Word(0x00be26ed));
    DividesMore(Ones(), 8, 24);
    DividesMore(Word(0x2dfd1072).Bits(), 8, 16);
    DividesMore(Word(0xbe26ed00).Bits(), 8, 8);
  }

  lemma Residue()
    ensures Xor(Word(0xdebb20e3).Bits(), Ones()) == Word(0x2144df1c).Bits()
  {
    Complement(Word(0xdebb20e3));
    assert Word(0xdebb20e3).Plus(Word(0xffffffff)) == Word(0x2144df1c);
  }

  /** A message that is followed by its own CRC, low byte first, has the same CRC whatever it is. */
  lemma ResidueIsConstant(crc: Bits, m: seq<bv8>, r: Word)
    requires |crc| == 32 && r.Bits() == SerialCrc(crc, m)
    ensures SerialCrc(crc, m + Bytes(r)) == Word(0x2144df1c).Bits()
  {
    var start := Xor(crc, Ones());
    var s := Feed(start, MessageBits(m));
    MessageBitsConcat(m, Bytes(r));
    FeedConcat(start, MessageBits(m), MessageBits(Bytes(r)));
    BytesBits(r);
    FeedAtOnce(s, r.Bits());
    assert r.Bits() + Zeros(0) == r.Bits();
    assert Xor(s, Xor(s, Ones())) == Ones();
    OnesDivided();
    Residue();
  }

  method CrcOfSigned(crc: Word, m: seq<bv8>) returns (r: Word, residue: Word)
    ensures r.Bits() == SerialCrc(crc.Bits(), m) && residue == Word(0x2144df1c)
    ensures residue.Bits() == SerialCrc(crc.Bits(), m + Bytes(r))
  {
    r := StdCrc32(crc, m);
    residue := StdCrc32(crc, m + Bytes(r));
    ResidueIsConstant(crc.Bits(), m, r);
    SameWord(residue, Word(0x2144df1c));
  }

  // ----- the check value -----

  /** The digits 1 to 9 in ASCII. */
  const CHECK: seq<bv8> := [0x31, 0x32, 0x33, 0x34, 0x35, 0x36, 0x37, 0x38, 0x39]

  lemma FeedsByte(c: Word, b: bv8, rest: seq<bv8>, c': Word)
    requires c' == c.Plus(Word(b as bv32)).Shift8()
    ensures Feed(c.Bits(), MessageBits([b] + rest)) == Feed(c'.Bits(), MessageBits(rest))
  {
    var y := Word(b as bv32);
    ByteIsLow(y);
    LowBits(y, y);
    FeedAtOnce(c.Bits(), ByteBits(b));
    PlusBits(c, y);
    Shift8Divides(c.Plus(y));
    assert ([b] + rest)[1..] == rest;
    FeedConcat(c.Bits(), ByteBits(b), MessageBits(rest));
  }

  lemma CheckShifts()
    ensures Word(0xffffffce).Shift8() == Word(0x7c231048)
    ensures Word(0x7c23107a).Shift8() == Word(0xb0acbb32)
    ensures Word(0xb0acbb01).Shift8() == Word(0x77b79c2d)
    ensures Word(0x77b79c19).Shift8() == Word(0x641c1f5c)
    ensures Word(0x641c1f69).Shift8() == Word(0x340ac5e3)
    ensures Word(0x340ac5d5).Shift8() == Word(0xf68d2c9e)
    ensures Word(0xf68d2ca9).Shift8() == Word(0xaffc9660)
    ensures Word(0xaffc9658).Shift8() == Word(0x651f2550)
    ensures Word(0x651f2569).Shift8() == Word(0x340bc6d9)
  {}

  lemma CheckSums()
    ensures Word(0xffffffff).Plus(Word(0x31)) == Word(0xffffffce)
    ensures Word(0x7c231048).Plus(Word(0x32)) == Word(0x7c23107a)
    ensures Word(0xb0acbb32).Plus(Word(0x33)) == Word(0xb0acbb01)
    ensures Word(0x77b79c2d).Plus(Word(0x34)) == Word(0x77b79c19)
    ensures Word(0x641c1f5c).Plus(Word(0x35)) == Word(0x641c1f69)
    ensures Word(0x340ac5e3).Plus(Word(0x36)) == Word(0x340ac5d5)
    ensures Word(0xf68d2c9e).Plus(Word(0x37)) == Word(0xf68d2ca9)
    ensures Word(0xaffc9660).Plus(Word(0x38)) == Word(0xaffc9658)
    ensures Word(0x651f2550).Plus(Word(0x39)) == Word(0x651f2569)
  {}

  lemma CheckIsFed()
    ensures Feed(Word(0xffffffff).Bits(), MessageBits(CHECK)) == Word(0x340bc6d9).Bits()
  {
    CheckShifts();
    CheckSums();
    assert forall i :: 0 <= i < 9 ==> CHECK[i..] == [CHECK[i]] + CHECK[i + 1..];
    FeedsByte(Word(0xffffffff), 0x31, CHECK[1..], Word(0x7c231048));
    FeedsByte(Word(0x7c231048), 0x32, CHECK[2..], Word(0xb0acbb32));
    FeedsByte(Word(0xb0acbb32), 0x33, CHECK[3..], Word(0x77b79c2d));
    FeedsByte(Word(0x77b79c2d), 0x34, CHECK[4..], Word(0x641c1f5c));
    FeedsByte(Word(0x641c1f5c), 0x35, CHECK[5..], Word(0x340ac5e3));
    FeedsByte(Word(0x340ac5e3), 0x36, CHECK[6..], Word(0xf68d2c9e));
    FeedsByte(Word(0xf68d2c9e), 0x37, CHECK[7..], Word(0xaffc9660));
    FeedsByte(Word(0xaffc9660), 0x38, CHECK[8..], Word(0x651f2550));
    FeedsByte(Word(0x651f2550), 0x39, CHECK[9..], Word(0x340bc6d9));
    assert CHECK[0..] == CHECK && CHECK[9..] == [];
  }

  /** The CRC of the digits from the initial value zero. */
  method CheckValue() returns (r: Word)
    ensures r == Word(0xcbf43926)
  {
    r := StdCrc32(Word(0), CHECK);
    CheckIsFed();
    Complement(Word(0));
    assert Word(0).Plus(Word(0xffffffff)) == Word(0xffffffff);
    Complement(Word(0x340bc6d9));
    assert Word(0x340bc6d9).Plus(Word(0xffffffff)) == Word(0xcbf43926);
    SameWord(r, Word(0xcbf43926));
  }
}

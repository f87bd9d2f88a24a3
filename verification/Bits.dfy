/** Bit strings (prefixes of addresses), their prefix-lexicographic order, and the byte
    level on which src/std_radix.c tests and compares them. */
module Bits {

  type Bits = seq<bool>

  /** r is a proper extension of p whose next bit is b: r lies on side b below p. */
  predicate Below(p: Bits, b: bool, r: Bits) {
    p < r && r[|p|] == b
  }

  /** The length of the longest common prefix. */
  function Common(a: Bits, b: Bits): (n: nat)
    ensures n <= |a| && n <= |b| && forall i :: 0 <= i < n ==> a[i] == b[i]
    ensures n < |a| && n < |b| ==> a[n] != b[n]
  {
    if a == [] || b == [] || a[0] != b[0] then 0 else 1 + Common(a[1..], b[1..])
  }

  /** Prefix-lexicographic order: a prefix comes before its extensions, 0 before 1. */
  predicate Before(a: Bits, b: Bits) {
    var n := Common(a, b);
    n < |b| && (n == |a| || b[n])
  }

  lemma PrefixCases(a: Bits, b: Bits)
    requires a <= b
    ensures a == b || a < b
  {
    if |a| == |b| { assert a == b; }
  }

  lemma PrefixComparable(a: Bits, b: Bits, c: Bits)
    requires a <= c && b <= c
    ensures |a| <= |b| ==> a <= b
    ensures |b| <= |a| ==> b <= a
    ensures |a| == |b| ==> a == b
  {
    if |a| == |b| { assert a == c[..|a|] == b; }
  }

  lemma CommonUnique(a: Bits, b: Bits, n: nat)
    requires n <= |a| && n <= |b| && forall i :: 0 <= i < n ==> a[i] == b[i]
    requires n < |a| && n < |b| ==> a[n] != b[n]
    ensures Common(a, b) == n
  {}

  /** Before is a strict total order. */
  lemma BeforeTotal(a: Bits, b: Bits)
    ensures a == b || Before(a, b) || Before(b, a)
    ensures !(Before(a, b) && Before(b, a))
    ensures !Before(a, a)
  {
    CommonUnique(b, a, Common(a, b));
    CommonUnique(a, a, |a|);
  }

  lemma BeforeTrans(a: Bits, b: Bits, c: Bits)
    requires Before(a, b) && Before(b, c)
    ensures Before(a, c)
  {
    var m, n := Common(a, b), Common(b, c);
    var k := if m < n then m else n;
    CommonUnique(a, c, k);
  }

  /** A node comes before what is below it, and the 0 side before the 1 side. */
  lemma BelowBefore(p: Bits, a: Bits, b: Bits)
    ensures p < a ==> Before(p, a)
    ensures Below(p, false, a) && Below(p, true, b) ==> Before(a, b) && !(a <= b) && !(b <= a)
  {
    if p < a { CommonUnique(p, a, |p|); }
    if Below(p, false, a) && Below(p, true, b) {
      CommonUnique(a, b, |p|);
    }
  }

  /** What lies outside the subtree of p compares the same with all of it. */
  lemma SubtreeContiguous(p: Bits, a: Bits, r: Bits)
    requires p <= a && !(p <= r)
    ensures Before(r, a) <==> Before(r, p)
    ensures Before(a, r) <==> Before(p, r)
  {
    var n := Common(p, r);
    CommonUnique(a, r, n);
    CommonUnique(r, a, n);
    CommonUnique(r, p, n);
  }

  // ----- bytes -----

  type Address = seq<bv8>

  /** RNBIT: the mask of bit i within its byte, most significant first (0x80 >> (i & 7)). */
  function RnBit(i: nat): bv8 {
    match i % 8
    case 0 => 0x80
    case 1 => 0x40
    case 2 => 0x20
    case 3 => 0x10
    case 4 => 0x08
    case 5 => 0x04
    case 6 => 0x02
    case _ => 0x01
  }

  /** BIT_TEST(addr[RNBYTE(i)], RNBIT(i)) */
  predicate BitAt(addr: Address, i: nat)
    requires i / 8 < |addr|
  {
    addr[i / 8] & RnBit(i) != 0
  }

  /** The first n bits of an address. */
  function Key(addr: Address, n: nat): (k: Bits)
    requires n <= 8 * |addr|
    ensures |k| == n && forall i :: 0 <= i < n ==> k[i] == BitAt(addr, i)
  {
    seq(n, i requires 0 <= i < n => BitAt(addr, i))
  }

  lemma KeyPrefix(addr: Address, m: nat, n: nat)
    requires m <= n <= 8 * |addr|
    ensures Key(addr, m) <= Key(addr, n)
    ensures Key(addr, n)[..m] == Key(addr, m)
  {}

  /** The table first_bit_set: the position of the most significant set bit. */
  function FirstBitSet(x: bv8): nat {
    if x >= 0x80 then 0
    else if x >= 0x40 then 1
    else if x >= 0x20 then 2
    else if x >= 0x10 then 3
    else if x >= 0x08 then 4
    else if x >= 0x04 then 5
    else if x >= 0x02 then 6
    else if x >= 0x01 then 7
    else 8
  }

  predicate SameBit(x: bv8, y: bv8, i: nat) {
    (x & RnBit(i) != 0) == (y & RnBit(i) != 0)
  }

  lemma SameBitXor(x: bv8, y: bv8, i: nat)
    ensures SameBit(x, y, i) <==> (x ^ y) & RnBit(i) == 0
  {
    var m := RnBit(i);
    if m == 0x80 {} else if m == 0x40 {} else if m == 0x20 {} else if m == 0x10 {}
    else if m == 0x08 {} else if m == 0x04 {} else if m == 0x02 {} else {}
  }

  lemma FirstBitSetMsb(z: bv8, i: nat)
    requires z != 0 && i <= FirstBitSet(z)
    ensures FirstBitSet(z) < 8
    ensures z & RnBit(i) != 0 <==> i == FirstBitSet(z)
  {}

  /** The first set bit of x ^ y is the first bit in which x and y differ. */
  lemma FirstBitDiffers(x: bv8, y: bv8)
    requires x != y
    ensures FirstBitSet(x ^ y) < 8
    ensures !SameBit(x, y, FirstBitSet(x ^ y))
    ensures SameLowBits(x, y, FirstBitSet(x ^ y))
  {
    assert x ^ y != 0;
    forall i | 0 <= i <= FirstBitSet(x ^ y)
      ensures SameBit(x, y, i) <==> i < FirstBitSet(x ^ y)
    {
      SameBitXor(x, y, i);
      FirstBitSetMsb(x ^ y, i);
    }
    FirstBitSetMsb(x ^ y, 0);
  }

  /** rdx_compare_address: the masked last byte first, then memcmp over the whole bytes before it. */
  predicate CompareAddress(ap1: Address, ap2: Address, tbyte: nat, tbit: bv8)
    requires tbyte < |ap1| && tbyte < |ap2|
  {
    var mask := !(tbit | (tbit - 1));
    (ap1[tbyte] ^ ap2[tbyte]) & mask != 0 || (tbyte != 0 && ap1[..tbyte] != ap2[..tbyte])
  }

  lemma MaskBits(z: bv8, n: nat)
    requires n < 8
    ensures z & !(RnBit(n) | (RnBit(n) - 1)) == 0 <==>
            (n > 0 ==> z & 0x80 == 0) && (n > 1 ==> z & 0x40 == 0) && (n > 2 ==> z & 0x20 == 0) &&
            (n > 3 ==> z & 0x10 == 0) && (n > 4 ==> z & 0x08 == 0) && (n > 5 ==> z & 0x04 == 0) &&
            (n > 6 ==> z & 0x02 == 0)
  {
    match n
    case 0 => case 1 => case 2 => case 3 => case 4 => case 5 => case 6 => case 7 =>
  }

  lemma MaskedByteCases(x: bv8, y: bv8, n: nat)
    requires n < 8
    ensures (x ^ y) & !(RnBit(n) | (RnBit(n) - 1)) == 0 <==>
            (n > 0 ==> SameBit(x, y, 0)) && (n > 1 ==> SameBit(x, y, 1)) && (n > 2 ==> SameBit(x, y, 2)) &&
            (n > 3 ==> SameBit(x, y, 3)) && (n > 4 ==> SameBit(x, y, 4)) && (n > 5 ==> SameBit(x, y, 5)) &&
            (n > 6 ==> SameBit(x, y, 6))
  {
    MaskBits(x ^ y, n);
    SameBitXor(x, y, 0); SameBitXor(x, y, 1); SameBitXor(x, y, 2); SameBitXor(x, y, 3);
    SameBitXor(x, y, 4); SameBitXor(x, y, 5); SameBitXor(x, y, 6);
  }

  predicate SameLowBits(x: bv8, y: bv8, n: nat) {
    forall i :: 0 <= i < n ==> SameBit(x, y, i)
  }

  /** The masked comparison of the last byte looks at its first n bits. */
  lemma MaskedByte(x: bv8, y: bv8, n: nat)
    requires n < 8
    ensures (x ^ y) & !(RnBit(n) | (RnBit(n) - 1)) == 0 <==> SameLowBits(x, y, n)
  {
    MaskedByteCases(x, y, n);
  }

  lemma BitInByte(a: Address, b: Address, k: nat)
    requires k / 8 < |a| && k / 8 < |b|
    ensures BitAt(a, k) == BitAt(b, k) <==> SameBit(a[k / 8], b[k / 8], k % 8)
  {}

  lemma KeyStep(a: Address, b: Address, k: nat)
    requires k / 8 < |a| && k / 8 < |b|
    ensures Key(a, k + 1) == Key(b, k + 1) <==> Key(a, k) == Key(b, k) && SameBit(a[k / 8], b[k / 8], k % 8)
  {
    BitInByte(a, b, k);
    assert Key(a, k + 1) == Key(a, k) + [BitAt(a, k)] && Key(b, k + 1) == Key(b, k) + [BitAt(b, k)];
  }

  /** Equality of the first 8 * t + n bits, split at the byte boundary. */
  lemma KeySplit(a: Address, b: Address, t: nat, n: nat)
    requires t < |a| && t < |b| && n <= 8
    ensures Key(a, 8 * t + n) == Key(b, 8 * t + n) <==>
            Key(a, 8 * t) == Key(b, 8 * t) && SameLowBits(a[t], b[t], n)
  {
    if n > 0 {
      var k := 8 * t + n - 1;
      KeySplit(a, b, t, n - 1);
      assert k / 8 == t && k % 8 == n - 1;
      KeyStep(a, b, k);
      assert SameLowBits(a[t], b[t], n) <==> SameLowBits(a[t], b[t], n - 1) && SameBit(a[t], b[t], n - 1);
    }
  }

  lemma SameByte(x: bv8, y: bv8)
    ensures SameLowBits(x, y, 8) <==> x == y
  {
    if x != y { FirstBitDiffers(x, y); }
  }

  /** Whole bytes: equal prefixes of 8 * t bits are equal byte strings. */
  lemma KeyBytes(a: Address, b: Address, t: nat)
    requires t <= |a| && t <= |b|
    ensures Key(a, 8 * t) == Key(b, 8 * t) <==> a[..t] == b[..t]
  {
    if t > 0 {
      KeyBytes(a, b, t - 1);
      KeySplit(a, b, t - 1, 8);
      SameByte(a[t - 1], b[t - 1]);
      assert a[..t] == a[..t - 1] + [a[t - 1]] && b[..t] == b[..t - 1] + [b[t - 1]];
    }
  }

  lemma CompareInByte(a: Address, b: Address, t: nat, m: nat)
    requires t < |a| && t < |b| && m < 8
    ensures CompareAddress(a, b, t, RnBit(m)) <==> !(a[..t] == b[..t] && SameLowBits(a[t], b[t], m))
  {
    MaskedByte(a[t], b[t], m);
  }

  /** Comparing at node bit n decides equality of the first n bits and looks at nothing else. */
  lemma CompareIsKeyEquality(a: Address, b: Address, n: nat)
    requires n / 8 < |a| && n / 8 < |b|
    ensures CompareAddress(a, b, n / 8, RnBit(n)) <==> Key(a, n) != Key(b, n)
  {
    var t, m := n / 8, n % 8;
    assert RnBit(n) == RnBit(m);
    CompareInByte(a, b, t, m);
    KeyBytes(a, b, t);
    KeySplit(a, b, t, m);
  }

  lemma SameByteStep(a: Address, b: Address, t: nat)
    requires t < |a| && t < |b|
    requires Key(a, 8 * t) == Key(b, 8 * t) && a[t] == b[t]
    ensures forall n: nat :: n <= 8 * t + 8 ==> Key(a, n) == Key(b, n)
  {
    SameByte(a[t], b[t]);
    KeySplit(a, b, t, 8);
    KeyPrefixesEqual(a, b, 8 * t + 8);
  }

  /** The first bit in which two bytes differ. */
  method DifferingBit(x: bv8, y: bv8) returns (f: nat)
    requires x != y
    ensures f < 8 && SameLowBits(x, y, f) && !SameBit(x, y, f)
  {
    FirstBitDiffers(x, y);
    f := FirstBitSet(x ^ y);
  }

  lemma BitOfByte(a: Address, b: Address, t: nat, f: nat)
    requires t < |a| && t < |b| && f < 8 && Key(a, 8 * t) == Key(b, 8 * t) && SameLowBits(a[t], b[t], f) && !SameBit(a[t], b[t], f)
    ensures Key(a, 8 * t + f) == Key(b, 8 * t + f) && BitAt(a, 8 * t + f) != BitAt(b, 8 * t + f)
  {
    KeySplit(a, b, t, f);
    BitAway(a, b, t, f, 8 * t + f);
  }

  lemma BitAway(a: Address, b: Address, t: nat, f: nat, k: nat)
    requires t < |a| && t < |b| && f < 8 && k == 8 * t + f && !SameBit(a[t], b[t], f)
    ensures k / 8 == t && BitAt(a, k) != BitAt(b, k)
  {
    assert k / 8 == t && k % 8 == f;
    BitInByte(a, b, k);
  }

  lemma KeyPrefixesEqual(a: Address, b: Address, m: nat)
    requires m <= 8 * |a| && m <= 8 * |b| && Key(a, m) == Key(b, m)
    ensures forall n: nat :: n <= m ==> Key(a, n) == Key(b, n)
  {
    forall n: nat | n <= m ensures Key(a, n) == Key(b, n) { KeyPrefix(a, n, m); KeyPrefix(b, n, m); }
  }

  lemma ByteOrderCases(x: bv8, y: bv8, f: nat)
    requires f < 8 && x & RnBit(f) == 0 && y & RnBit(f) != 0
    requires (f > 0 ==> SameBit(x, y, 0)) && (f > 1 ==> SameBit(x, y, 1)) && (f > 2 ==> SameBit(x, y, 2)) &&
             (f > 3 ==> SameBit(x, y, 3)) && (f > 4 ==> SameBit(x, y, 4)) && (f > 5 ==> SameBit(x, y, 5)) &&
             (f > 6 ==> SameBit(x, y, 6))
    ensures x < y
  {
    match f
    case 0 => case 1 => case 2 => case 3 => case 4 => case 5 => case 6 => case 7 =>
  }

  lemma LowBitsSymmetric(x: bv8, y: bv8, f: nat)
    requires SameLowBits(x, y, f)
    ensures SameLowBits(y, x, f)
  {
    forall i | 0 <= i < f ensures SameBit(y, x, i) { assert SameBit(x, y, i); }
  }

  /** The first bit in which two bytes differ decides which is the smaller number. */
  lemma ByteOrder(x: bv8, y: bv8, f: nat)
    requires f < 8 && SameLowBits(x, y, f) && !SameBit(x, y, f)
    ensures x < y <==> y & RnBit(f) != 0
  {
    LowBitsSymmetric(x, y, f);
    if y & RnBit(f) != 0 { ByteOrderCases(x, y, f); } else { ByteOrderCases(y, x, f); }
  }

  lemma BitIn(a: Address, t: nat, f: nat, k: nat)
    requires t < |a| && f < 8 && k == 8 * t + f
    ensures k / 8 == t && BitAt(a, k) == (a[t] & RnBit(f) != 0)
  {
    assert k / 8 == t && k % 8 == f;
  }

  lemma OrderAtBit(a: Address, b: Address, t: nat, f: nat)
    requires t < |a| && t < |b| && f < 8 && Key(a, 8 * t) == Key(b, 8 * t)
    requires SameLowBits(a[t], b[t], f) && !SameBit(a[t], b[t], f)
    ensures Before(Key(a, 8 * |a|), Key(b, 8 * |b|)) <==> b[t] & RnBit(f) != 0
  {
    BitOfByte(a, b, t, f);
    BitIn(b, t, f, 8 * t + f);
    FirstBitOrders(a, b, 8 * t + f);
  }

  lemma OrderAtByte(a: Address, b: Address, t: nat, f: nat)
    requires t < |a| && t < |b| && f < 8 && Key(a, 8 * t) == Key(b, 8 * t)
    requires SameLowBits(a[t], b[t], f) && !SameBit(a[t], b[t], f)
    ensures Before(Key(a, 8 * |a|), Key(b, 8 * |b|)) <==> a[t] < b[t]
  {
    OrderAtBit(a, b, t, f);
    ByteOrder(a[t], b[t], f);
  }

  /** The order of prefixes is the order of addresses as byte strings: the first byte that differs decides. */
  lemma KeyOrder(a: Address, b: Address, t: nat)
    requires t < |a| && t < |b| && a[..t] == b[..t] && a[t] != b[t]
    ensures Before(Key(a, 8 * |a|), Key(b, 8 * |b|)) <==> a[t] < b[t]
  {
    FirstBitDiffers(a[t], b[t]);
    KeyBytes(a, b, t);
    OrderAtByte(a, b, t, FirstBitSet(a[t] ^ b[t]));
  }

  lemma FirstBitOrders(a: Address, b: Address, k: nat)
    requires k < 8 * |a| && k < 8 * |b| && Key(a, k) == Key(b, k) && BitAt(a, k) != BitAt(b, k)
    ensures Before(Key(a, 8 * |a|), Key(b, 8 * |b|)) <==> BitAt(b, k)
  {
    var p, q := Key(a, 8 * |a|), Key(b, 8 * |b|);
    KeyPrefix(a, k, |p|);
    KeyPrefix(b, k, |q|);
    assert p[..k] == q[..k];
    assert forall i :: 0 <= i < k ==> p[i] == p[..k][i] && q[i] == q[..k][i];
    CommonUnique(p, q, k);
  }

  // ----- addresses as bit strings -----

  predicate SpellsUpTo(addr: Address, k: Bits, n: nat) {
    n <= |k| && n <= 8 * |addr| ==> k[..n] == Key(addr, n)
  }

  /** The bits of k are the first bits of the address. The explicit trigger keeps bytes out of
      proofs that are only about bit strings. */
  ghost predicate Spells(addr: Address, k: Bits) {
    |k| <= 8 * |addr| && forall n: nat {:trigger SpellsUpTo(addr, k, n)} :: SpellsUpTo(addr, k, n)
  }

  lemma SpellsKey(addr: Address, k: Bits)
    ensures Spells(addr, k) <==> |k| <= 8 * |addr| && k == Key(addr, |k|)
  {
    if Spells(addr, k) {
      assert SpellsUpTo(addr, k, |k|) && k[..|k|] == k;
    }
    if |k| <= 8 * |addr| && k == Key(addr, |k|) {
      forall n: nat ensures SpellsUpTo(addr, k, n) { if n <= |k| { KeyPrefix(addr, n, |k|); } }
    }
  }

  lemma SpellsPrefix(addr: Address, k: Bits, n: nat)
    requires Spells(addr, k) && n <= |k|
    ensures Spells(addr, k[..n])
  {
    SpellsKey(addr, k);
    KeyPrefix(addr, n, |k|);
    SpellsKey(addr, k[..n]);
  }

  lemma SpellsBit(addr: Address, k: Bits, i: nat)
    requires Spells(addr, k) && i < |k|
    ensures i / 8 < |addr| && BitAt(addr, i) == k[i]
  {
    SpellsKey(addr, k);
  }

  /** rdx_compare_address at node bit n. */
  lemma CompareSpells(a: Address, b: Address, n: nat, k: Bits, k': Bits)
    requires Spells(a, k) && Spells(b, k') && n <= |k| && n <= |k'|
    requires n / 8 < |a| && n / 8 < |b|
    ensures CompareAddress(a, b, n / 8, RnBit(n)) <==> k[..n] != k'[..n]
  {
    CompareIsKeyEquality(a, b, n);
    assert SpellsUpTo(a, k, n) && SpellsUpTo(b, k', n);
  }

  /** The byte-stepping search for the first differing bit used by insert and getnext: any
      result of n or more means that the first n bits are equal. */
  method FirstDifference(ap: Address, ap2: Address, n: nat, ghost k: Bits, ghost k': Bits) returns (dbit: nat)
    requires Spells(ap, k) && Spells(ap2, k') && n <= |k| && n <= |k'|
    ensures dbit < n ==> k[..dbit] == k'[..dbit] && k[dbit] != k'[dbit]
    ensures dbit >= n ==> k[..n] == k'[..n]
  {
    dbit := FirstByteDifference(ap, ap2, n);
    var m := if dbit < n then dbit else n;
    assert SpellsUpTo(ap, k, m) && SpellsUpTo(ap2, k', m);
    if dbit < n {
      SpellsBit(ap, k, dbit);
      SpellsBit(ap2, k', dbit);
    }
  }

  method FirstByteDifference(ap: Address, ap2: Address, n: nat) returns (dbit: nat)
    requires n <= 8 * |ap| && n <= 8 * |ap2|
    ensures dbit < n ==> Key(ap, dbit) == Key(ap2, dbit) && BitAt(ap, dbit) != BitAt(ap2, dbit)
    ensures dbit >= n ==> Key(ap, n) == Key(ap2, n)
  {
    dbit := 0;
    while dbit < n
      invariant dbit % 8 == 0 && dbit < n + 8 && dbit <= 8 * |ap| && dbit <= 8 * |ap2|
      invariant Key(ap, dbit) == Key(ap2, dbit)
      invariant dbit >= n ==> Key(ap, n) == Key(ap2, n)
    {
      var i := dbit / 8;
      if ap[i] != ap2[i] {
        var f := DifferingBit(ap[i], ap2[i]);
        BitOfByte(ap, ap2, i, f);
        KeyPrefixesEqual(ap, ap2, dbit + f);
        dbit := dbit + f;
        break;
      }
      SameByteStep(ap, ap2, i);
      dbit := dbit + 8;
    }
  }
}

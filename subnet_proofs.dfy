/**
 * What the subnet engine of ipcl guarantees: the binary-string route of
 * calcBroadCast agrees with the mask formulation, the host count matches the
 * usable range, and the last-octet increments never wrap.
 */
module SubnetProofs {
  import opened Bits
  import opened Parser

  // ---------------------------------------------------------------------------
  // Strings of binary digits

  /** Every character is a binary digit. */
  predicate IsBinary(s: string)
  {
    forall i :: 0 <= i < |s| ==> s[i] == '0' || s[i] == '1'
  }

  /** The value of a concatenation: the first part shifted left past the second. */
  lemma {:induction false} ValueConcat(x: string, y: string)
    ensures BinStrValue(x + y) == BinStrValue(x) * Pow2(|y|) + BinStrValue(y)
  {
    if x != [] {
      assert (x + y)[1..] == x[1..] + y;
      ValueConcat(x[1..], y);
      Pow2Add(|x| - 1, |y|);
      var top := if x[0] != '0' then Pow2(|x| - 1) else 0;
      assert BinStrValue(x) == top + BinStrValue(x[1..]);
      MulDistrib(top, BinStrValue(x[1..]), Pow2(|y|));
    } else {
      assert x + y == y;
    }
  }

  /** One more digit doubles the value and adds the new bit. */
  lemma ValueSnoc(x: string, c: char)
    ensures BinStrValue(x + [c]) == 2 * BinStrValue(x) + (if c != '0' then 1 else 0)
  {
    ValueConcat(x, [c]);
    assert [c][1..] == [];
    assert Pow2(1) == 2;
  }

  lemma MulDistrib(a: int, b: int, c: int)
    ensures (a + b) * c == a * c + b * c
  {
  }

  /** The digits BinDigits writes read back as the low n bits of v. */
  lemma {:induction false} DigitsLow(v: nat, n: nat)
    ensures BinStrValue(BinDigits(v, n)) == Low(v, n)
  {
    if n > 0 {
      var bit := if v % 2 == 0 then '0' else '1';
      var d := BinDigits(v / 2, n - 1);
      assert BinDigits(v, n) == d + [bit];
      ValueSnoc(d, bit);
      DigitsLow(v / 2, n - 1);
      assert Low(v, n) == 2 * Low(v / 2, n - 1) + v % 2;
    }
  }

  /** The digits BinDigits writes spell v modulo 2^n. */
  lemma DigitsValue(v: nat, n: nat)
    ensures BinStrValue(BinDigits(v, n)) == v % Pow2(n)
  {
    DigitsLow(v, n);
    LowIsMod(v, n);
  }

  /** Binary digits are determined by the value they spell. */
  lemma {:induction false} DigitsOfValue(s: string)
    requires IsBinary(s)
    ensures BinDigits(BinStrValue(s), |s|) == s
  {
    if s != [] {
      var n := |s|;
      var init, c := s[..n - 1], s[n - 1];
      assert s == init + [c];
      ValueSnoc(init, c);
      var bit := if c != '0' then 1 else 0;
      DivModUnique(BinStrValue(s), 2, BinStrValue(init), bit);
      DigitsOfValue(init);
    }
  }

  /** BinDigits writes binary digits only. */
  lemma {:induction false} DigitsBinary(v: nat, n: nat)
    ensures IsBinary(BinDigits(v, n))
  {
    if n > 0 {
      DigitsBinary(v / 2, n - 1);
    }
  }

  /** byte2binstr writes exactly 8 binary digits. */
  lemma ByteToBinStrShape(b: Byte)
    ensures |ByteToBinStr(b)| == 8 && IsBinary(ByteToBinStr(b))
  {
    DigitsBinary(b, 8);
  }

  /** strings.Repeat of a character: every position holds that character. */
  lemma {:induction false} RepeatChars(c: char, n: nat)
    ensures forall i :: 0 <= i < n ==> Repeat(c, n)[i] == c
  {
    if n > 0 {
      RepeatChars(c, n - 1);
    }
  }

  /** makeIpV4 copies the first bytes of its source into four zeroed bytes. */
  lemma MakeIpV4Copies(src: Address)
    ensures forall i :: 0 <= i < 4 ==> MakeIpV4(src)[i] == if i < |src| then src[i] else 0
  {
    if |src| < 4 {
      ZerosAreZero(4 - |src|);
    }
  }

  lemma {:induction false} ZerosAreZero(n: nat)
    ensures forall i :: 0 <= i < n ==> Zeros(n)[i] == 0
  {
    if n > 0 {
      ZerosAreZero(n - 1);
    }
  }

  /** The digits of a byte read back as the byte. */
  lemma ByteValue(b: Byte)
    ensures BinStrValue(ByteToBinStr(b)) == b
  {
    DigitsValue(b, 8);
    Pow2Values();
    DivModUnique(b, 256, 0, b);
  }

  /** binstr2byte(byte2binstr(b)) == b. */
  lemma ByteRoundTrip(b: Byte)
    ensures BinByte(ByteToBinStr(b)) == b
  {
    ByteValue(b);
    DivModUnique(b, 256, 0, b);
  }

  /** byte2binstr(binstr2byte(s)) == s for every string of 8 binary digits. */
  lemma BinStrRoundTrip(s: string)
    requires |s| == 8 && IsBinary(s)
    ensures ByteToBinStr(BinByte(s)) == s
  {
    BinStrValueBound(s);
    Pow2Values();
    DivModUnique(BinStrValue(s), 256, 0, BinStrValue(s));
    DigitsOfValue(s);
  }

  /** A run of h ones spells 2^h - 1. */
  lemma {:induction false} OnesValue(h: nat)
    ensures BinStrValue(Repeat('1', h)) == Pow2(h) - 1
  {
    if h > 0 {
      ValueConcat(Repeat('1', h - 1), ['1']);
      assert ['1'][1..] == [];
      OnesValue(h - 1);
    }
  }

  // ---------------------------------------------------------------------------
  // Addresses as 32 binary digits

  /** The digits of an address are binary. */
  lemma {:induction false} BinStrIsBinary(a: Address)
    ensures IsBinary(BinStr(a))
  {
    if a != [] {
      BinStrIsBinary(a[..|a| - 1]);
      ByteToBinStrShape(a[|a| - 1]);
    }
  }

  /** Byte k of an address occupies digits 8k to 8k+8. */
  lemma {:induction false} BinStrChunk(a: Address, k: nat)
    requires k < |a|
    ensures BinStr(a)[8 * k..8 * k + 8] == ByteToBinStr(a[k])
  {
    var init := a[..|a| - 1];
    assert BinStr(a) == BinStr(init) + ByteToBinStr(a[|a| - 1]);
    if k < |a| - 1 {
      BinStrChunk(init, k);
    }
  }

  /** The digits of a 4-byte address are the digits of its bytes in order. */
  lemma BinStr4(a: Address)
    requires |a| == 4
    ensures BinStr(a) == ByteToBinStr(a[0]) + ByteToBinStr(a[1]) + ByteToBinStr(a[2]) + ByteToBinStr(a[3])
  {
    var a1, a2, a3 := a[..1], a[..2], a[..3];
    assert a1[..0] == [] && a2[..1] == a1 && a3[..2] == a2 && a[..3] == a3;
    assert BinStr(a1) == ByteToBinStr(a[0]);
    assert BinStr(a2) == BinStr(a1) + ByteToBinStr(a[1]);
    assert BinStr(a3) == BinStr(a2) + ByteToBinStr(a[2]);
  }

  /** The 32 digits of a 4-byte address spell its value. */
  lemma BinStrValue32(a: Address)
    requires |a| == 4
    ensures BinStrValue(BinStr(a)) == Value32(a)
  {
    var c0, c1, c2, c3 := ByteToBinStr(a[0]), ByteToBinStr(a[1]), ByteToBinStr(a[2]), ByteToBinStr(a[3]);
    BinStr4(a);
    assert BinStr(a) == c0 + (c1 + (c2 + c3));
    ValueConcat(c2, c3);
    ValueConcat(c1, c2 + c3);
    ValueConcat(c0, c1 + (c2 + c3));
    Pow2Values();
    ByteValue(a[0]);
    ByteValue(a[1]);
    ByteValue(a[2]);
    ByteValue(a[3]);
  }

  /** Reading 32 digits 8 at a time gives the address they spell. */
  lemma UnpackValue(s: string)
    requires |s| == 32
    ensures Value32(Unpack(s)) == BinStrValue(s)
  {
    var c0, c1, c2, c3 := s[0..8], s[8..16], s[16..24], s[24..32];
    assert c2 + c3 == s[16..];
    assert c1 + (c2 + c3) == s[8..];
    assert s == c0 + (c1 + (c2 + c3));
    ValueConcat(c2, c3);
    ValueConcat(c1, c2 + c3);
    ValueConcat(c0, c1 + (c2 + c3));
    Pow2Values();
    ChunkByte(c0);
    ChunkByte(c1);
    ChunkByte(c2);
    ChunkByte(c3);
  }

  /** Eight digits are read as their full value: nothing is cut off. */
  lemma ChunkByte(c: string)
    requires |c| == 8
    ensures BinByte(c) == BinStrValue(c) < 256
  {
    BinStrValueBound(c);
    Pow2Values();
    DivModUnique(BinStrValue(c), 256, 0, BinStrValue(c));
  }

  /** Unpacking the digits of a 4-byte address gives the address back. */
  lemma UnpackBinStr(a: Address)
    requires |a| == 4
    ensures Unpack(BinStr(a)) == a
  {
    BinStrChunk(a, 0);
    BinStrChunk(a, 1);
    BinStrChunk(a, 2);
    BinStrChunk(a, 3);
    ByteRoundTrip(a[0]);
    ByteRoundTrip(a[1]);
    ByteRoundTrip(a[2]);
    ByteRoundTrip(a[3]);
  }

  /** Writing out an unpacked string of 32 binary digits gives the string back. */
  lemma BinStrUnpack(s: string)
    requires |s| == 32 && IsBinary(s)
    ensures BinStr(Unpack(s)) == s
  {
    var u := Unpack(s);
    var c0, c1, c2, c3 := s[0..8], s[8..16], s[16..24], s[24..32];
    BinStrRoundTrip(c0);
    BinStrRoundTrip(c1);
    BinStrRoundTrip(c2);
    BinStrRoundTrip(c3);
    BinStr4(u);
    Split4(s);
  }

  lemma Split4(s: string)
    requires |s| == 32
    ensures s == s[0..8] + s[8..16] + s[16..24] + s[24..32]
  {
  }

  // ---------------------------------------------------------------------------
  // Network, mask and broadcast address

  /** The network address is a multiple of the block size 2^(32 - ones). */
  predicate Aligned(network: Address, ones: nat)
    requires |network| == 4 && ones <= 32
  {
    Value32(network) % Pow2(32 - ones) == 0
  }

  /** The mask has the top `ones` bits set: its value is 2^32 - 2^(32 - ones). */
  lemma MaskValue(ones: nat)
    requires ones <= 32
    ensures Pow2(32 - ones) <= Pow2(32)
    ensures Value32(MaskOf(ones)) == Pow2(32) - Pow2(32 - ones)
  {
    Pow2Monotone(32 - ones, 32);
    Pow2Values();
  }

  /** The mask of prefix length p is p one-bits followed by 32 - p zero-bits. */
  lemma MaskBits(ones: nat)
    requires ones <= 32
    ensures BinStr(MaskOf(ones)) == Repeat('1', ones) + Repeat('0', 32 - ones)
  {
    var h := 32 - ones;
    var digits := Repeat('1', ones) + Repeat('0', h);
    OnesZerosValue(ones, h);
    MaskValue(ones);
    MaskDigitsBinary(ones);
    DigitsOfAddress(digits, MaskOf(ones));
  }

  lemma MaskDigitsBinary(ones: nat)
    requires ones <= 32
    ensures IsBinary(Repeat('1', ones) + Repeat('0', 32 - ones))
  {
    RepeatChars('1', ones);
    RepeatChars('0', 32 - ones);
  }

  /** 32 binary digits that spell the value of a 4-byte address are that address's digits. */
  lemma DigitsOfAddress(digits: string, a: Address)
    requires |digits| == 32 && IsBinary(digits) && |a| == 4 && BinStrValue(digits) == Value32(a)
    ensures BinStr(a) == digits
  {
    UnpackValue(digits);
    Value32Injective(Unpack(digits), a);
    BinStrUnpack(digits);
  }

  /** p one-bits followed by h zero-bits spell 2^(p + h) - 2^h. */
  lemma OnesZerosValue(p: nat, h: nat)
    ensures BinStrValue(Repeat('1', p) + Repeat('0', h)) == Pow2(p + h) - Pow2(h)
  {
    OnesValue(p);
    ZerosValue(h);
    OnesThenZeros(p, h, Repeat('1', p), Repeat('0', h));
  }

  lemma OnesThenZeros(ones: nat, h: nat, high: string, low: string)
    requires |low| == h
    requires BinStrValue(high) == Pow2(ones) - 1 && BinStrValue(low) == 0
    ensures BinStrValue(high + low) == Pow2(ones + h) - Pow2(h)
  {
    ValueConcat(high, low);
    Pow2Add(ones, h);
    OneLess(Pow2(ones), Pow2(h), Pow2(ones + h));
  }

  lemma OneLess(a: int, b: int, c: int)
    requires c == a * b
    ensures (a - 1) * b == c - b
  {
  }

  /** A run of zeros spells 0. */
  lemma {:induction false} ZerosValue(h: nat)
    ensures BinStrValue(Repeat('0', h)) == 0
  {
    if h > 0 {
      ValueConcat(Repeat('0', h - 1), ['0']);
      assert ['0'][1..] == [];
      ZerosValue(h - 1);
    }
  }

  /** Mask.Size() of the mask of prefix length p is (p, 32), so Parse records ones == p and bits == 32. */
  lemma MaskSizeOf(ones: nat)
    requires ones <= 32
    ensures MaskSize(MaskOf(ones)) == (ones, 32)
  {
    var digits := Repeat('1', ones) + Repeat('0', 32 - ones);
    MaskBits(ones);
    LeadingOnesOf(ones, 32 - ones);
    assert digits[ones..] == Repeat('0', 32 - ones);
  }

  /** p ones followed by zeros start with exactly p ones. */
  lemma {:induction false} LeadingOnesOf(p: nat, h: nat)
    ensures LeadingOnes(Repeat('1', p) + Repeat('0', h)) == p
  {
    var digits := Repeat('1', p) + Repeat('0', h);
    if p == 0 {
      assert digits == Repeat('0', h);
      RepeatChars('0', h);
    } else {
      RepeatCons('1', p);
      assert digits[0] == '1';
      assert digits[1..] == Repeat('1', p - 1) + Repeat('0', h);
      LeadingOnesOf(p - 1, h);
    }
  }

  /** A run of n > 0 copies of c is c followed by n - 1 copies. */
  lemma RepeatCons(c: char, n: nat)
    requires n > 0
    ensures Repeat(c, n) == [c] + Repeat(c, n - 1)
  {
    RepeatChars(c, n);
    RepeatChars(c, n - 1);
  }

  /** The network is the address rounded down to a block boundary. */
  lemma NetworkValue(ip4: Address, ones: nat)
    requires |ip4| == 4 && ones <= 32
    ensures var v := Value32(ip4);
      Value32(NetworkOf(ip4, ones)) == v - v % Pow2(32 - ones)
    ensures Aligned(NetworkOf(ip4, ones), ones)
  {
    var v, p := Value32(ip4), Pow2(32 - ones);
    MaskedValue(v, ones);
    RoundDown(v, p);
  }

  /** The value of the broadcast address: the block containing the network, with every host bit set. */
  lemma BroadcastValue(network: Address, ones: nat)
    requires |network| == 4 && ones <= 32
    ensures var v, p := Value32(network), Pow2(32 - ones);
      Value32(BroadcastOf(network, ones)) == v - v % p + p - 1
  {
    BroadcastDigitsValue(network, ones);
    TopDigitsValue(network, ones);
  }

  /** The broadcast digits read as the network's top digits followed by 32 - ones one-bits. */
  lemma BroadcastDigitsValue(network: Address, ones: nat)
    requires |network| == 4 && ones <= 32
    ensures var p, top := Pow2(32 - ones), BinStr(network)[..ones];
      Value32(BroadcastOf(network, ones)) == BinStrValue(top) * p + p - 1
  {
    var h := 32 - ones;
    var bits := BroadcastBits(network, ones);
    assert MakeIpV4(Unpack(bits)) == Unpack(bits);
    UnpackValue(bits);
    ValueConcat(BinStr(network)[..ones], Repeat('1', h));
    OnesValue(h);
  }

  /** The network's top `ones` digits spell the network rounded down to a block boundary, shifted right. */
  lemma TopDigitsValue(network: Address, ones: nat)
    requires |network| == 4 && ones <= 32
    ensures var v, p, top := Value32(network), Pow2(32 - ones), BinStr(network)[..ones];
      BinStrValue(top) * p == v - v % p
  {
    var v, p := Value32(network), Pow2(32 - ones);
    var digits := BinStr(network);
    BinStrValue32(network);
    var top, low := digits[..ones], digits[ones..];
    assert digits == top + low;
    ValueConcat(top, low);
    BinStrValueBound(low);
    DivModUnique(v, p, BinStrValue(top), BinStrValue(low));
  }

  /** calcBroadCast's digits: the broadcast address keeps the network's top `ones` bits and sets the rest. */
  lemma BroadcastBitsLemma(network: Address, ones: nat)
    requires |network| == 4 && ones <= 32
    ensures BinStr(BroadcastOf(network, ones)) == BinStr(network)[..ones] + Repeat('1', 32 - ones)
  {
    var bits := BroadcastBits(network, ones);
    BinStrIsBinary(network);
    RepeatChars('1', 32 - ones);
    assert IsBinary(bits);
    assert MakeIpV4(Unpack(bits)) == Unpack(bits);
    BinStrUnpack(bits);
  }

  /** The string route agrees with the mask formulation: Broadcast == Network | ~Mask. */
  lemma BroadcastIsOrNotMask(network: Address, ones: nat)
    requires |network| == 4 && ones <= 32
    ensures Value32(BroadcastOf(network, ones))
      == BitOr(Value32(network), BitNot(Value32(MaskOf(ones)), 32))
  {
    BroadcastValue(network, ones);
    OrNotMask(Value32(network), ones);
  }

  /** OR with the complement of the mask sets every host bit. */
  lemma OrNotMask(v: nat, ones: nat)
    requires ones <= 32
    ensures var p := Pow2(32 - ones);
      BitOr(v, BitNot(Value32(MaskOf(ones)), 32)) == v - v % p + p - 1
  {
    MaskValue(ones);
    OrNotValue(v, Value32(MaskOf(ones)), 32 - ones);
  }

  lemma OrNotValue(v: nat, m: nat, h: nat)
    requires h <= 32 && Pow2(h) <= Pow2(32) && m == Pow2(32) - Pow2(h)
    ensures BitOr(v, BitNot(m, 32)) == v - v % Pow2(h) + Pow2(h) - 1
  {
    Pow2Values();
    NotValue(m, 32);
    OrLowOnes(v, h);
  }

  // ---------------------------------------------------------------------------
  // The derived fields, prefix length by prefix length

  /** A /32 block has one host and no Min, Max or Broadcast. */
  lemma HostRoute(network: Address)
    requires |network| == 4
    ensures Derive(network, 32) == Derived(1, [], [], [])
  {
  }

  /** A /31 block (RFC 3021) has two hosts: the network and the broadcast address. */
  lemma PointToPoint(ip4: Address)
    requires |ip4| == 4
    ensures var network := NetworkOf(ip4, 31);
      var d := Derive(network, 31);
      d.hostNum == 2 && d.min == network && d.max == d.broadcast
      && Value32(d.broadcast) == Value32(network) + 1
  {
    var network := NetworkOf(ip4, 31);
    NetworkValue(ip4, 31);
    BroadcastValue(network, 31);
    assert Pow2(1) == 2;
  }

  /** The lowest two bits of an address are the lowest two bits of its last byte. */
  lemma LowBits(a: Address)
    requires |a| == 4
    ensures Value32(a) % 4 == a[3] % 4
  {
    var k := (a[0] as int) * 0x40_0000 + (a[1] as int) * 0x4000 + (a[2] as int) * 0x40;
    DivModUnique(Value32(a), 4, k + a[3] / 4, a[3] % 4);
  }

  /** Adding one to the last byte adds one to the address when the byte does not wrap. */
  lemma LastByteStep(a: Address, d: int)
    requires |a| == 4 && 0 <= a[3] as int + d < 256
    ensures |a[3 := a[3] as int + d]| == 4
    ensures Value32(a[3 := a[3] as int + d]) == Value32(a) + d
  {
  }

  /** In a block of at least 4 addresses the network ends in two 0 bits and the broadcast address in two 1 bits. */
  lemma BlockLowBits(v: nat, ones: nat)
    requires ones <= 30 && v % Pow2(32 - ones) == 0
    ensures Pow2(32 - ones) >= 4 && v % 4 == 0 && (v + Pow2(32 - ones) - 1) % 4 == 3
  {
    var q := Pow2(30 - ones);
    Pow2Add(2, 30 - ones);
    assert Pow2(2) == 4;
    AlignedWeaken(v, 2, 30 - ones);
    DivModUnique(v + 4 * q - 1, 4, v / 4 + q - 1, 3);
  }

  /** The increment of the last byte of a network ending in 00 does not wrap. */
  lemma MinNoWrap(network: Address, ones: nat)
    requires |network| == 4 && ones != 31 && Value32(network) % 4 == 0
    ensures network[3] < 255 && Value32(MinOf(network, ones)) == Value32(network) + 1
  {
    LowBits(network);
    assert MakeIpV4(network) == network;
    LastByteStep(network, 1);
  }

  /**
   * The decrement of the last byte of a broadcast address ending in 11 does
   * not wrap. The address's value is passed as `value` so that callers can
   * name it without unfolding how the broadcast address was built.
   */
  lemma MaxNoWrap(broadcast: Address, ones: nat, value: nat)
    requires |broadcast| == 4 && ones != 31 && Value32(broadcast) == value && value % 4 == 3
    ensures broadcast[3] > 0 && Value32(MaxOf(broadcast, ones)) == Value32(broadcast) - 1
  {
    LowBits(broadcast);
    assert MakeIpV4(broadcast) == broadcast;
    LastByteStep(broadcast, -1);
  }

  /**
   * For a prefix of at most 30 bits on an aligned network, Min is the network
   * plus one and Max the broadcast address minus one, as 32-bit numbers: the
   * last-byte increment and decrement never wrap.
   */
  lemma UsableRangeAligned(network: Address, ones: nat)
    requires |network| == 4 && ones <= 30 && Aligned(network, ones)
    ensures var v, p, d := Value32(network), Pow2(32 - ones), Derive(network, ones);
      p >= 4 && d.hostNum == p - 2
      && network[3] < 255 && d.broadcast[3] > 0
      && Value32(d.broadcast) == v + p - 1
      && Value32(d.min) == v + 1 && Value32(d.max) == v + p - 2
  {
    BlockLowBits(Value32(network), ones);
    MinNoWrap(network, ones);
    BroadcastEnd(network, ones);
    DeriveUsable(network, ones);
  }

  /** On an aligned network of at least 4 addresses the broadcast address ends in 11, so Max does not wrap. */
  lemma BroadcastEnd(network: Address, ones: nat)
    requires |network| == 4 && ones <= 30 && Aligned(network, ones)
    ensures var v, p, b := Value32(network), Pow2(32 - ones), BroadcastOf(network, ones);
      b[3] > 0 && Value32(b) == v + p - 1 && Value32(MaxOf(b, ones)) == v + p - 2
  {
    var v, p, b := Value32(network), Pow2(32 - ones), BroadcastOf(network, ones);
    assert (v + p - 1) % 4 == 3 by {
      BlockLowBits(v, ones);
    }
    assert Value32(b) == v + p - 1 by {
      BroadcastValue(network, ones);
    }
    MaxNoWrap(b, ones, v + p - 1);
  }

  /** Up to /30 calcIPv4 sets every field, from the network and its broadcast address. */
  lemma DeriveUsable(network: Address, ones: nat)
    requires |network| == 4 && ones <= 30
    ensures var b := BroadcastOf(network, ones);
      Derive(network, ones) == Derived(Pow2(32 - ones) - 2, MinOf(network, ones), MaxOf(b, ones), b)
  {
    Pow2Monotone(2, 32 - ones);
    assert Pow2(2) == 4;
  }

  /**
   * For a prefix of at most 30 bits, Network < Min <= Max < Broadcast and the
   * usable range Min..Max holds exactly HostNum = 2^(32 - p) - 2 addresses.
   */
  lemma UsableRange(ip4: Address, ones: nat)
    requires |ip4| == 4 && ones <= 30
    ensures var network := NetworkOf(ip4, ones);
      var d := Derive(network, ones);
      Pow2(32 - ones) >= 4 && d.hostNum > 1 &&
      var n, lo, hi, b := Value32(network), Value32(d.min), Value32(d.max), Value32(d.broadcast);
      d.hostNum == Pow2(32 - ones) - 2
      && n < lo <= hi < b
      && lo == n + 1 && hi == b - 1
      && hi - lo + 1 == d.hostNum
  {
    NetworkValue(ip4, ones);
    UsableRangeAligned(NetworkOf(ip4, ones), ones);
  }

  /** Every prefix length: the derived host count is 2^(32 - p) - 2 up to /30, then 2 and 1. */
  lemma HostCountCases(ones: nat)
    requires ones <= 32
    ensures HostCount(ones, 32) == (if ones == 32 then 1 else if ones == 31 then 2 else Pow2(32 - ones) - 2)
    ensures HostCount(ones, 32) >= 1 && (HostCount(ones, 32) > 1 <==> ones < 32)
  {
    if ones <= 30 {
      Pow2Monotone(2, 32 - ones);
      assert Pow2(2) == 4;
    }
  }

  /** Up to /30, the derived fields of an aligned network are the addresses with the values UsableRangeAligned gives. */
  lemma DeriveByValues(network: Address, ones: nat, min: Address, max: Address, broadcast: Address)
    requires |network| == 4 && ones <= 30 && Aligned(network, ones)
    requires |min| == 4 && |max| == 4 && |broadcast| == 4
    requires var v, p := Value32(network), Pow2(32 - ones);
      Value32(min) == v + 1 && Value32(max) == v + p - 2 && Value32(broadcast) == v + p - 1
    ensures Derive(network, ones) == Derived(Pow2(32 - ones) - 2, min, max, broadcast)
  {
    UsableRangeAligned(network, ones);
    var d := Derive(network, ones);
    Value32Injective(d.min, min);
    Value32Injective(d.max, max);
    Value32Injective(d.broadcast, broadcast);
  }

  // The two samples below take their addresses as parameters fixed by their
  // requires rather than as literals in the ensures: on literal arguments the
  // verifier would evaluate the whole binary-string computation of the
  // broadcast address, while the general lemmas above already settle it.

  /** 192.168.1.0/24: 254 hosts, 192.168.1.1 to 192.168.1.254, broadcast 192.168.1.255. */
  lemma Sample24(ip4: Address, min: Address, max: Address, broadcast: Address)
    requires ip4 == [192, 168, 1, 0] && min == [192, 168, 1, 1]
    requires max == [192, 168, 1, 254] && broadcast == [192, 168, 1, 255]
    ensures NetworkOf(ip4, 24) == ip4
    ensures Derive(ip4, 24) == Derived(254, min, max, broadcast)
  {
    Pow2Values();
    assert Value32(ip4) == 0xc0a8_0100;
    NetworkValue(ip4, 24);
    Value32Injective(NetworkOf(ip4, 24), ip4);
    DeriveByValues(ip4, 24, min, max, broadcast);
  }

  /** 192.168.1.0/1: network 128.0.0.0, hosts 128.0.0.1 to 255.255.255.254, broadcast 255.255.255.255. */
  lemma Sample1(ip4: Address, network: Address, min: Address, max: Address, broadcast: Address)
    requires ip4 == [192, 168, 1, 0] && network == [128, 0, 0, 0] && min == [128, 0, 0, 1]
    requires max == [255, 255, 255, 254] && broadcast == [255, 255, 255, 255]
    ensures NetworkOf(ip4, 1) == network
    ensures Derive(network, 1) == Derived(2147483646, min, max, broadcast)
  {
    Pow2Values();
    assert Pow2(31) == 0x8000_0000;
    assert Value32(ip4) == 0xc0a8_0100;
    NetworkValue(ip4, 1);
    Value32Injective(NetworkOf(ip4, 1), network);
    DeriveByValues(network, 1, min, max, broadcast);
  }

  // ---------------------------------------------------------------------------
  // Membership

  /**
   * Contains on a record Parse filled in: an address belongs to the subnet
   * exactly when it lies between the network and the broadcast address.
   */
  lemma ContainsIsRange(cidr: CidrInfo, ip4: Address, ip: Address)
    requires cidr.IsIPv4() && |ip4| == 4
    requires cidr.Network == NetworkOf(ip4, cidr.ones) && cidr.Mask == MaskOf(cidr.ones)
    ensures cidr.Contains(ip) <==>
      var x := To4(ip);
      |x| == 4 && Value32(cidr.Network) <= Value32(x) <= Value32(BroadcastOf(cidr.Network, cidr.ones))
  {
    var ones := cidr.ones;
    var p := Pow2(32 - ones);
    var n := Value32(cidr.Network);
    NetworkValue(ip4, ones);
    BroadcastValue(cidr.Network, ones);
    assert Value32(BroadcastOf(cidr.Network, ones)) == n + p - 1;
    var x := To4(ip);
    if |x| == 4 {
      var xv := Value32(x);
      MaskedValue(xv, ones);
      assert cidr.Contains(ip) <==> BitAnd(xv, Value32(cidr.Mask)) == n;
      SameBlock(xv, n, p);
    }
  }

  /** AND with the mask rounds a 32-bit value down to a block boundary. */
  lemma MaskedValue(v: nat, ones: nat)
    requires v < 0x1_0000_0000 && ones <= 32
    ensures BitAnd(v, Value32(MaskOf(ones))) == v - v % Pow2(32 - ones)
  {
    MaskValue(ones);
    Pow2Values();
    AndHighMask(v, 32, 32 - ones);
  }

  /** x rounds down to the aligned n exactly when x lies in the block starting at n. */
  lemma SameBlock(x: nat, n: nat, p: nat)
    requires p > 0 && n % p == 0
    ensures x - x % p == n <==> n <= x <= n + p - 1
  {
    if n <= x <= n + p - 1 {
      RoundDown(n, p);
      DivModUnique(x, p, n / p, x - n);
    }
  }
}

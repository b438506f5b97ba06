/**
 * The subnet engine of ipcl (parser/parser.go): from the address and prefix
 * length that the CIDR text parser reports, derive the network, the mask, the
 * number of usable hosts, the broadcast address and the first and last usable
 * host addresses of an IPv4 subnet.
 */
module Parser {
  import opened Bits

  type Byte = b: int | 0 <= b < 256

  /** The bytes of a Go net.IP or net.IPMask; the empty sequence is a nil address. */
  type Address = seq<Byte>

  const TypeIPv4 := "ipv4"

  datatype Option<T> = None | Some(value: T)

  /** The two errors Parse can return. */
  datatype Error =
    | InvalidCidr(text: string)  // the CIDR text parser rejected the text
    | NotIPv4(ip: Address)       // the address is not an IPv4 address

  datatype Result<T> = Ok(value: T) | Err(error: Error)

  /**
   * What the CIDR text parser (net.ParseCIDR) reports: a syntax error with the
   * offending text, or the parsed address (IPv4 text comes back in its 16-byte
   * IPv4-mapped form), the prefix length and the width of the mask in bits
   * (32 for IPv4 text, 128 for IPv6 text).
   */
  datatype CidrParse = SyntaxError(text: string) | Parsed(ip: Address, ones: nat, bits: nat)

  // ---------------------------------------------------------------------------
  // IPv4 addresses as 32-bit numbers

  /** The big-endian value of a 4-byte address. */
  function Value32(a: Address): (v: nat)
    requires |a| == 4
    ensures v < 0x1_0000_0000
  {
    (a[0] as int) * 0x100_0000 + (a[1] as int) * 0x1_0000 + (a[2] as int) * 0x100 + a[3]
  }

  /** The 4-byte address whose big-endian value is v. */
  function FromValue32(v: nat): (a: Address)
    requires v < 0x1_0000_0000
    ensures |a| == 4 && Value32(a) == v
  {
    var high, low := v / 0x1_0000, v % 0x1_0000;
    [high / 0x100, high % 0x100, low / 0x100, low % 0x100]
  }

  /** Reading a 4-byte address back from its value gives the address. */
  lemma FromValueOfValue(a: Address)
    requires |a| == 4
    ensures FromValue32(Value32(a)) == a
  {
    var v := Value32(a);
    var a0, a1, a2, a3 := a[0] as int, a[1] as int, a[2] as int, a[3] as int;
    DivModUnique(v, 0x100_0000, a0, a1 * 0x1_0000 + a2 * 0x100 + a3);
    DivModUnique(v, 0x1_0000, a0 * 0x100 + a1, a2 * 0x100 + a3);
    DivModUnique(a0 * 0x100 + a1, 0x100, a0, a1);
    DivModUnique(v, 0x100, a0 * 0x1_0000 + a1 * 0x100 + a2, a3);
    DivModUnique(a0 * 0x1_0000 + a1 * 0x100 + a2, 0x100, a0 * 0x100 + a1, a2);
  }

  /** A 4-byte address is determined by its value. */
  lemma Value32Injective(a: Address, b: Address)
    requires |a| == 4 && |b| == 4 && Value32(a) == Value32(b)
    ensures a == b
  {
    FromValueOfValue(a);
    FromValueOfValue(b);
  }

  /** The 12-byte prefix of an IPv4-mapped IPv6 address (::ffff:a.b.c.d). */
  const V4InV6Prefix: seq<Byte> := [0, 0, 0, 0, 0, 0, 0, 0, 0, 0, 0xff, 0xff]

  /** net.IP.To4: the 4-byte form of an IPv4 address, nil for any other address. */
  function To4(ip: Address): (r: Address)
    ensures |r| == 4 <==> |ip| == 4 || (|ip| == 16 && ip[..12] == V4InV6Prefix)
    ensures |r| == 4 ==> r == ip[|ip| - 4..]
    ensures |r| != 4 ==> r == []
  {
    if |ip| == 4 then ip
    else if |ip| == 16 && ip[..12] == V4InV6Prefix then ip[12..]
    else []
  }

  /**
   * getType (parser/parser.go:58-67): an address is IPv4 when it has a 4-byte
   * form; every other address (IPv6 or malformed) is an error naming it.
   */
  function GetType(ip: Address): (r: Result<string>)
    ensures r.Ok? <==> |ip| == 4 || (|ip| == 16 && ip[..12] == V4InV6Prefix)
    ensures r.Ok? ==> r.value == TypeIPv4
    ensures r.Err? ==> r.error == NotIPv4(ip)
  {
    if |To4(ip)| == 4 then Ok(TypeIPv4) else Err(NotIPv4(ip))
  }

  /** net.CIDRMask(ones, 32): the top `ones` bits set, the rest clear. */
  function MaskOf(ones: nat): (m: Address)
    requires ones <= 32
    ensures |m| == 4
  {
    Pow2Monotone(32 - ones, 32);
    Pow2Values();
    FromValue32(0x1_0000_0000 - Pow2(32 - ones))
  }

  /** The number of '1' digits a string starts with. */
  function LeadingOnes(s: string): (n: nat)
    ensures n <= |s|
  {
    if s == [] || s[0] != '1' then 0 else 1 + LeadingOnes(s[1..])
  }

  /**
   * net.IPMask.Size: the number of leading one bits and the width in bits of
   * a canonical mask (ones followed only by zeros); (0, 0) for any other mask.
   */
  function MaskSize(m: Address): (r: (nat, nat))
    ensures r.0 <= r.1
    ensures r.1 == 0 || r.1 == 8 * |m|
  {
    var digits := BinStr(m);
    var n := LeadingOnes(digits);
    if digits[n..] == Repeat('0', |digits| - n) then (n, |digits|) else (0, 0)
  }

  /** The network net.ParseCIDR reports: the address AND the mask. */
  function NetworkOf(ip4: Address, ones: nat): (n: Address)
    requires |ip4| == 4 && ones <= 32
    ensures |n| == 4
  {
    FromValue32(BitAnd(Value32(ip4), Value32(MaskOf(ones))))
  }

  // ---------------------------------------------------------------------------
  // Addresses as strings of binary digits

  /** The n low bits of v as binary digits, most significant first. */
  function BinDigits(v: nat, n: nat): (s: string)
    ensures |s| == n
  {
    if n == 0 then [] else BinDigits(v / 2, n - 1) + [if v % 2 == 0 then '0' else '1']
  }

  /** byte2binstr (parser/parser.go:132-134): fmt's "%08b" of a byte. */
  function ByteToBinStr(b: Byte): (s: string)
    ensures |s| == 8
  {
    BinDigits(b, 8)
  }

  /** A string read as binary, most significant digit first, every non-'0' character a one. */
  function BinStrValue(s: string): (v: nat)
  {
    if s == [] then 0
    else (if s[0] != '0' then Pow2(|s| - 1) else 0) + BinStrValue(s[1..])
  }

  /** What binstr2byte computes: the binary value of the string, cut to a byte. */
  function BinByte(s: string): (b: Byte)
  {
    BinStrValue(s) % 256
  }

  lemma {:induction false} BinStrValueBound(s: string)
    ensures BinStrValue(s) < Pow2(|s|)
  {
    if s != [] {
      BinStrValueBound(s[1..]);
    }
  }

  /** Setting a bit above the top bit of a adds that bit. */
  lemma {:induction false} OrHighBit(a: nat, j: nat)
    requires a < Pow2(j)
    ensures BitOr(a, Pow2(j)) == a + Pow2(j)
  {
    if j > 0 {
      var p := Pow2(j - 1);
      DivModUnique(Pow2(j), 2, p, 0);
      OrHighBit(a / 2, j - 1);
    }
  }

  /**
   * binstr2byte (parser/parser.go:136-146): scan the string from its last
   * character, OR-ing bit j into the byte for every character that is not '0';
   * bits from the ninth character from the end on fall off the byte.
   */
  method BinStrToByte(binstr: string) returns (bv: Byte)
    ensures bv == BinByte(binstr)
  {
    bv := 0;
    var i, j := |binstr| - 1, 0;
    while i >= 0
      invariant -1 <= i < |binstr| && j == |binstr| - 1 - i
      invariant bv == BinStrValue(binstr[i + 1..]) % 256
    {
      ScanStep(binstr[i], binstr[i + 1..], bv);
      assert binstr[i..] == [binstr[i]] + binstr[i + 1..];
      if binstr[i] != '0' {
        bv := BitOr(bv, ShiftedBit(j));
      }
      i, j := i - 1, j + 1;
    }
    assert binstr[0..] == binstr;
  }

  /** The byte 1 << j: a one shifted past the top bit of a byte is lost. */
  function ShiftedBit(j: nat): (r: nat)
  {
    if j < 8 then Pow2(j) else 0
  }

  /** One step of binstr2byte: a character in front of the suffix scanned so far. */
  lemma ScanStep(c: char, suffix: string, bv: Byte)
    requires bv == BinStrValue(suffix) % 256
    ensures BitOr(bv, ShiftedBit(|suffix|)) < 256
    ensures c != '0' ==> BinStrValue([c] + suffix) % 256 == BitOr(bv, ShiftedBit(|suffix|))
    ensures c == '0' ==> BinStrValue([c] + suffix) % 256 == bv
  {
    var j := |suffix|;
    var v := BinStrValue(suffix);
    ValueCons(c, suffix);
    BinStrValueBound(suffix);
    var next := BinStrValue([c] + suffix);
    if j < 8 {
      ScanLowBit(v, j, bv);
      assert BitOr(bv, ShiftedBit(j)) == bv + Pow2(j);
    } else {
      ScanHighBit(v, j, bv);
      assert BitOr(bv, ShiftedBit(j)) == bv;
    }
    if c != '0' {
      assert next == Pow2(j) + v;
    } else {
      assert next == v;
    }
  }

  /** A character in front of a string adds its digit's weight. */
  lemma ValueCons(c: char, suffix: string)
    ensures BinStrValue([c] + suffix) == (if c != '0' then Pow2(|suffix|) else 0) + BinStrValue(suffix)
  {
    assert ([c] + suffix)[1..] == suffix;
  }

  /** A bit the byte holds: it is set above the bits scanned so far. */
  lemma ScanLowBit(v: nat, j: nat, bv: nat)
    requires j < 8 && v < Pow2(j) && bv == v % 256
    ensures bv == v && BitOr(bv, Pow2(j)) == bv + Pow2(j) < 256
    ensures (Pow2(j) + v) % 256 == bv + Pow2(j)
  {
    var p := Pow2(j);
    Pow2Monotone(j, 7);
    assert Pow2(7) == 128;
    SmallMod(v);
    OrHighBit(bv, j);
    SmallMod(p + v);
  }

  lemma SmallMod(x: int)
    requires 0 <= x < 256
    ensures x % 256 == x
  {
  }

  /** A bit the byte cannot hold: shifting 1 left by j >= 8 leaves no bit of a byte. */
  lemma ScanHighBit(v: nat, j: nat, bv: nat)
    requires j >= 8 && bv == v % 256
    ensures BitOr(bv, 0) == bv && (Pow2(j) + v) % 256 == bv
  {
    var k := Pow2(j - 8);
    Pow2Above8(j);
    OrZero(bv);
    ModShift(v, k);
  }

  lemma Pow2Above8(j: nat)
    requires j >= 8
    ensures Pow2(j) == 256 * Pow2(j - 8)
  {
    assert Pow2(8) == 256;
    Pow2Add(8, j - 8);
  }

  lemma ModShift(x: nat, k: nat)
    ensures (256 * k + x) % 256 == x % 256
  {
    DivModUnique(256 * k + x, 256, k + x / 256, x % 256);
  }

  /** The concatenated binary digits of every byte of an address (the buffer of calcBroadCast). */
  function BinStr(a: Address): (s: string)
    ensures |s| == 8 * |a|
  {
    if a == [] then "" else BinStr(a[..|a| - 1]) + ByteToBinStr(a[|a| - 1])
  }

  /** strings.Repeat for a single character. */
  function Repeat(c: char, n: nat): (s: string)
    ensures |s| == n
  {
    if n == 0 then "" else Repeat(c, n - 1) + [c]
  }

  /** makeIpV4 (parser/parser.go:152-157): a fresh 4-byte address holding the first bytes of src. */
  function MakeIpV4(src: Address): (dst: Address)
    ensures |dst| == 4
  {
    if |src| >= 4 then src[..4] else src + Zeros(4 - |src|)
  }

  /** n zero bytes. */
  function Zeros(n: nat): (z: Address)
    ensures |z| == n
  {
    if n == 0 then [] else Zeros(n - 1) + [0]
  }

  // ---------------------------------------------------------------------------
  // What calcIPv4 derives, as functions of the network and the prefix length

  /** The 32 binary digits of the broadcast address: the network's top `ones` digits, then ones. */
  function BroadcastBits(network: Address, ones: nat): (s: string)
    requires |network| == 4 && ones <= 32
    ensures |s| == 32
  {
    BinStr(network)[..ones] + Repeat('1', 32 - ones)
  }

  /** Four bytes read from the first 32 binary digits, 8 at a time. */
  function Unpack(s: string): (a: Address)
    requires |s| >= 32
    ensures |a| == 4
  {
    [BinByte(s[0..8]), BinByte(s[8..16]), BinByte(s[16..24]), BinByte(s[24..32])]
  }

  /** The broadcast address calcBroadCast builds. */
  function BroadcastOf(network: Address, ones: nat): (b: Address)
    requires |network| == 4 && ones <= 32
    ensures |b| == 4
  {
    MakeIpV4(Unpack(BroadcastBits(network, ones)))
  }

  /** The first usable host: the network itself for /31, else the network with its last byte plus one (wrapping). */
  function MinOf(network: Address, ones: nat): (m: Address)
    requires |network| == 4
    ensures |m| == 4
  {
    if ones == 31 then network
    else var ip := MakeIpV4(network); ip[3 := (ip[3] as int + 1) % 256]
  }

  /** The last usable host: the broadcast address for /31, else it with its last byte minus one (wrapping). */
  function MaxOf(broadcast: Address, ones: nat): (m: Address)
    requires |broadcast| == 4
    ensures |m| == 4
  {
    if ones == 31 then broadcast
    else var ip := MakeIpV4(broadcast); ip[3 := (ip[3] as int - 1) % 256]
  }

  /**
   * calcHostNumV4 (parser/parser.go:79-89): one host for a full-length
   * prefix, two for a prefix one bit shorter, otherwise every address of the
   * block except the network and the broadcast address.
   */
  function HostCount(ones: nat, bits: nat): (n: int)
    requires ones <= bits
  {
    if ones == bits then 1
    else if ones == bits - 1 then 2
    else Pow2(bits - ones) - 2
  }

  /** The fields calcIPv4 sets; absent addresses are empty. */
  datatype Derived = Derived(hostNum: int, min: Address, max: Address, broadcast: Address)

  /** calcIPv4 (parser/parser.go:69-77) on a zero-valued record. */
  function Derive(network: Address, ones: nat): (d: Derived)
    requires |network| == 4 && ones <= 32
    ensures d.hostNum > 1 ==> |d.min| == 4 && |d.max| == 4 && |d.broadcast| == 4
  {
    var n := HostCount(ones, 32);
    if n > 1 then
      var b := BroadcastOf(network, ones);
      Derived(n, MinOf(network, ones), MaxOf(b, ones), b)
    else
      Derived(n, [], [], [])
  }

  // ---------------------------------------------------------------------------
  // The record and the methods that fill it in

  /** CIDRInfo (parser/parser.go:16-28); ipNet is represented by Network and Mask. */
  class CidrInfo {
    var family: string
    var SrcCidr: string
    var Network: Address
    var Mask: Address
    var ones: nat
    var bits: nat
    var HostNum: int
    var Min: Address
    var Max: Address
    var Broadcast: Address

    /** The zero value of the Go struct. */
    ghost predicate IsZero()
      reads this
    {
      family == "" && SrcCidr == "" && Network == [] && Mask == [] && ones == 0 && bits == 0
      && HostNum == 0 && Min == [] && Max == [] && Broadcast == []
    }

    /** A record Parse filled in for an IPv4 address. */
    ghost predicate IsIPv4()
      reads this
    {
      family == TypeIPv4 && |Network| == 4 && |Mask| == 4 && ones <= 32 && bits == 32
    }

    function Computed(): (d: Derived)
      reads this
    {
      Derived(HostNum, Min, Max, Broadcast)
    }

    constructor ()
      ensures IsZero()
    {
      family, SrcCidr, Network, Mask, ones, bits := "", "", [], [], 0, 0;
      HostNum, Min, Max, Broadcast := 0, [], [], [];
    }

    /** calcIPv4 (parser/parser.go:69-77). */
    method CalcIPv4()
      requires |Network| == 4 && ones <= bits == 32
      modifies this`HostNum, this`Min, this`Max, this`Broadcast
      ensures HostNum == HostCount(ones, bits)
      ensures HostNum > 1 ==> Computed() == Derive(Network, ones)
      ensures HostNum <= 1 ==> Min == old(Min) && Max == old(Max) && Broadcast == old(Broadcast)
    {
      CalcHostNumV4();
      if HostNum > 1 {
        CalcAddressesV4();
      }
    }

    /** calcHostNumV4 (parser/parser.go:79-89). */
    method CalcHostNumV4()
      requires ones <= bits
      modifies this`HostNum
      ensures HostNum == HostCount(ones, bits)
    {
      var hostNum: int;
      if ones == bits {
        hostNum := 1;
      } else if ones == bits - 1 {
        hostNum := 2;
      } else {
        hostNum := Pow2(bits - ones) - 2;
      }
      HostNum := hostNum;
    }

    /** calcAddressesV4 (parser/parser.go:91-114). */
    method CalcAddressesV4()
      requires |Network| == 4 && ones <= bits == 32
      modifies this`Min, this`Max, this`Broadcast
      ensures Broadcast == BroadcastOf(Network, ones)
      ensures Min == MinOf(Network, ones) && Max == MaxOf(Broadcast, ones)
    {
      CalcBroadcast();
      var network, broadcast := Network, Broadcast;
      var minIp: Address, maxIp: Address;
      if ones == 31 {
        minIp := network;
      } else {
        minIp := MakeIpV4(network);
        minIp := minIp[3 := (minIp[3] as int + 1) % 256];
      }
      assert minIp == MinOf(network, ones);
      if ones == 31 {
        maxIp := broadcast;
      } else {
        maxIp := MakeIpV4(broadcast);
        maxIp := maxIp[3 := (maxIp[3] as int - 1) % 256];
      }
      Min, Max := minIp, maxIp;
    }

    /**
     * calcBroadCast (parser/parser.go:116-130): write the network as binary
     * digits, keep the first `ones` of them, pad with '1' to `bits` digits and
     * read the result back 8 digits at a time.
     */
    method CalcBroadcast()
      requires |Network| == 4 && ones <= bits == 32
      modifies this`Broadcast
      ensures Broadcast == BroadcastOf(Network, ones)
    {
      var buf := "";
      for k := 0 to |Network|
        invariant buf == BinStr(Network[..k])
      {
        assert Network[..k + 1][..k] == Network[..k];
        buf := buf + ByteToBinStr(Network[k]);
      }
      assert Network[..|Network|] == Network;
      var bcBinStr := buf[..ones] + Repeat('1', bits - ones);
      assert bcBinStr == BroadcastBits(Network, ones);

      var broad := new Byte[4](_ => 0);
      var i, f, t := 0, 0, 8;
      while i < 4
        invariant 0 <= i <= 4 && f == 8 * i && t == f + 8
        invariant forall k :: 0 <= k < i ==> broad[k] == BinByte(bcBinStr[8 * k..8 * k + 8])
      {
        broad[i] := BinStrToByte(bcBinStr[f..t]);
        i, f, t := i + 1, f + 8, t + 8;
      }
      assert broad[..] == Unpack(bcBinStr);
      Broadcast := MakeIpV4(broad[..]);
    }

    /**
     * The IPv4 part of Parse (parser/parser.go:44-53): record the text, the
     * network and the mask, then derive the rest.
     */
    method SetIPv4(srcCidr: string, ip4: Address, prefix: nat)
      requires IsZero() && |ip4| == 4 && prefix <= 32
      modifies this
      ensures IsIPv4() && SrcCidr == srcCidr && ones == prefix
      ensures Network == NetworkOf(ip4, prefix) && Mask == MaskOf(prefix)
      ensures Computed() == Derive(Network, ones)
    {
      var network, mask := NetworkOf(ip4, prefix), MaskOf(prefix);
      family, SrcCidr := TypeIPv4, srcCidr;
      Network, Mask := network, mask;
      // Mask.Size() of the mask of `prefix` is (prefix, 32): SubnetProofs.MaskSizeOf.
      ones, bits := prefix, 32;
      if family == TypeIPv4 {
        CalcIPv4();
      }
    }

    /**
     * Contains (parser/parser.go:159-161): the address, in its 4-byte form,
     * agrees with the network on every mask bit.
     */
    predicate Contains(ip: Address): (r: bool)
      reads this
      requires IsIPv4()
      ensures r ==> |To4(ip)| == 4 && Value32(Network) <= Value32(To4(ip))
    {
      var x := To4(ip);
      |x| == 4 && BitAnd(Value32(x), Value32(Mask)) == Value32(Network)
    }
  }

  /**
   * Parse (parser/parser.go:30-56). `parsed` is what net.ParseCIDR reports
   * for `srcCidr`. An address with a 4-byte form is taken with a 32-bit mask,
   * as IPv4 text gives; the 128-bit mask of IPv4-mapped IPv6 text is not
   * modelled.
   */
  method Parse(srcCidr: string, parsed: CidrParse) returns (cidr: CidrInfo, err: Option<Error>)
    requires parsed.Parsed? && |To4(parsed.ip)| == 4 ==> parsed.bits == 32 && parsed.ones <= parsed.bits
    ensures fresh(cidr)
    ensures parsed.SyntaxError? ==> err == Some(InvalidCidr(parsed.text)) && cidr.IsZero()
    ensures parsed.Parsed? && GetType(parsed.ip).Err? ==> err == Some(NotIPv4(parsed.ip)) && cidr.IsZero()
    ensures parsed.Parsed? && GetType(parsed.ip).Ok? ==>
      var ip4 := To4(parsed.ip);
      err == None && cidr.IsIPv4() && cidr.SrcCidr == srcCidr
      && cidr.Network == NetworkOf(ip4, parsed.ones) && cidr.Mask == MaskOf(parsed.ones)
      && cidr.ones == parsed.ones && cidr.bits == parsed.bits && cidr.Computed() == Derive(cidr.Network, cidr.ones)
  {
    cidr := new CidrInfo();
    match parsed
    case SyntaxError(text) =>
      err := Some(InvalidCidr(text));
    case Parsed(ip, ones, _) =>
      var t := GetType(ip);
      if t.Err? {
        err := Some(t.error);
        return;
      }
      cidr.SetIPv4(srcCidr, To4(ip), ones);
      err := None;
  }
}

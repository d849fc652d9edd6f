/**
 * Address helpers (Net.java): splitting a 32-bit IPv4 address into its
 * four network-order bytes, and the "host:port" text form of an endpoint.
 */
module Net {
  import opened Bytes
  import opened Wrappers

  /**
   * `toInetAddress(int)`: the four address bytes, most significant first.
   * The first byte is `ip >>> 24`, the others `(ip >> k) & 0xff`; both read
   * the unsigned 32-bit pattern of `ip`.
   */
  function ToInetAddress(ip: int32): (a: seq<byte>)
    ensures |a| == 4
  {
    var u := ToUnsigned32(ip);
    [u / 0x100_0000, (u / 0x1_0000) % 0x100, (u / 0x100) % 0x100, u % 0x100]
  }

  /** Recombines four network-order bytes into a Java `int`. */
  function FromAddressBytes(a: seq<byte>): int32
    requires |a| == 4
  {
    Wrap32((a[0] as int) * 0x100_0000 + (a[1] as int) * 0x1_0000 + (a[2] as int) * 0x100 + a[3] as int)
  }

  /** Splitting an address into bytes and recombining them big-endian gives the address back. */
  lemma AddressRoundTrip(ip: int32)
    ensures FromAddressBytes(ToInetAddress(ip)) == ip
  {
    var u := ToUnsigned32(ip);
    var a := ToInetAddress(ip);
    assert u == (u / 0x100) * 0x100 + u % 0x100;
    assert u / 0x100 == (u / 0x1_0000) * 0x100 + (u / 0x100) % 0x100;
    assert u / 0x1_0000 == (u / 0x100_0000) * 0x100 + (u / 0x1_0000) % 0x100;
    assert (a[0] as int) * 0x100_0000 + (a[1] as int) * 0x1_0000 + (a[2] as int) * 0x100 + a[3] as int == u;
  }

  /** Distinct addresses have distinct byte forms. */
  lemma AddressInjective(ip1: int32, ip2: int32)
    requires ToInetAddress(ip1) == ToInetAddress(ip2)
    ensures ip1 == ip2
  {
    AddressRoundTrip(ip1);
    AddressRoundTrip(ip2);
  }

  /** `1 << (8 * k)`: the weight of the byte `k` places from the least significant one. */
  function ByteWeight(k: nat): (w: nat)
    requires k < 4
    ensures w >= 1
  {
    if k == 0 then 1 else 0x100 * ByteWeight(k - 1)
  }

  /**
   * Byte `i` of the address is `(ip >>> (24 - 8i)) & 0xff`: the unsigned
   * pattern shifted right by `24 - 8i` bits (a division by the byte weight),
   * masked to its low eight bits.
   */
  lemma AddressBytesAreShifts(ip: int32)
    ensures forall i :: 0 <= i < 4 ==>
      ToInetAddress(ip)[i] == (ToUnsigned32(ip) / ByteWeight(3 - i)) % 0x100
  {
    var u := ToUnsigned32(ip);
    assert u / 0x100_0000 < 0x100;
    assert ByteWeight(3) == 0x100_0000;
  }

  /** The decimal character for one digit. */
  function DigitChar(d: nat): char
    requires d < 10
  {
    (('0' as int) + d) as char
  }

  predicate IsDigit(c: char) {
    '0' <= c <= '9'
  }

  function DigitValue(c: char): nat
    requires IsDigit(c)
  {
    c as int - '0' as int
  }

  /** Renders a natural number in decimal, without leading zeros. */
  function Decimal(n: nat): (s: string)
    ensures |s| > 0
    ensures forall i :: 0 <= i < |s| ==> IsDigit(s[i])
    decreases n
  {
    if n < 10 then [DigitChar(n)] else Decimal(n / 10) + [DigitChar(n % 10)]
  }

  /** Reads a string of decimal digits as a number. */
  function ParseDecimal(s: string): nat
    requires forall i :: 0 <= i < |s| ==> IsDigit(s[i])
    decreases |s|
  {
    if |s| == 0 then 0
    else ParseDecimal(s[..|s| - 1]) * 10 + DigitValue(s[|s| - 1])
  }

  /** Reading back a rendered number gives the number. */
  lemma {:induction false} DecimalRoundTrip(n: nat)
    ensures ParseDecimal(Decimal(n)) == n
    decreases n
  {
    if n >= 10 {
      var s := Decimal(n);
      assert s[..|s| - 1] == Decimal(n / 10);
      DecimalRoundTrip(n / 10);
    }
  }

  /** `InetAddress.getHostAddress()` of an IPv4 address: the dotted quad. */
  function HostAddress(a: seq<byte>): string
    requires |a| == 4
  {
    Decimal(a[0]) + "." + Decimal(a[1]) + "." + Decimal(a[2]) + "." + Decimal(a[3])
  }

  /** `toString(int ip, short port)`: host address, a colon, and the port read as unsigned. */
  function ToString(ip: int32, port: short): string
  {
    HostAddress(ToInetAddress(ip)) + ":" + Decimal(ToUnsigned16(port))
  }

  /** Splits `s` at the last occurrence of `c`. */
  function SplitLast(s: string, c: char): Option<(string, string)>
    decreases |s|
  {
    if |s| == 0 then None
    else if s[|s| - 1] == c then Some((s[..|s| - 1], ""))
    else
      match SplitLast(s[..|s| - 1], c)
      case None => None
      case Some(parts) => Some((parts.0, parts.1 + [s[|s| - 1]]))
  }

  lemma {:induction false} SplitLastAppend(a: string, c: char, b: string)
    requires forall i :: 0 <= i < |b| ==> b[i] != c
    ensures SplitLast(a + [c] + b, c) == Some((a, b))
    decreases |b|
  {
    var s := a + [c] + b;
    if |b| == 0 {
      assert s[..|s| - 1] == a;
    } else {
      assert s[..|s| - 1] == a + [c] + b[..|b| - 1];
      SplitLastAppend(a, c, b[..|b| - 1]);
      assert b[..|b| - 1] + [b[|b| - 1]] == b;
    }
  }

  /** Reads an endpoint text back into its host text and port number. */
  function ParseEndpoint(s: string): Option<(string, nat)>
  {
    match SplitLast(s, ':')
    case None => None
    case Some(parts) =>
      if forall i :: 0 <= i < |parts.1| ==> IsDigit(parts.1[i])
      then Some((parts.0, ParseDecimal(parts.1)))
      else None
  }

  /**
   * The text form carries the port as its unsigned value: parsing it back
   * yields the dotted address and a port in [0, 65535] that agrees with the
   * short's 16 bits.
   */
  lemma EndpointRoundTrip(ip: int32, port: short)
    ensures ParseEndpoint(ToString(ip, port)) == Some((HostAddress(ToInetAddress(ip)), ToUnsigned16(port)))
    ensures 0 <= ToUnsigned16(port) < 0x1_0000
  {
    var digits := Decimal(ToUnsigned16(port));
    SplitLastAppend(HostAddress(ToInetAddress(ip)), ':', digits);
    DecimalRoundTrip(ToUnsigned16(port));
  }
}

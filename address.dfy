/**
 * Go's net.ParseIP and the To4 / To16 views of its result, which the
 * hosts-file parser uses to tell IPv4 from IPv6 addresses.
 *
 * The syntax is the one net.ParseIP accepts since it delegates to
 * net/netip: a dotted quad of four decimal fields without leading zeros,
 * each at most 255; or colon-separated groups of one to four hex digits,
 * with at most one "::" standing for one or more zero groups and an
 * optional dotted quad as the last two groups. Scoped addresses ("%zone")
 * are refused. A parsed address is the 16-byte form Go returns, and the
 * empty sequence stands for Go's nil IP.
 */
module Address {
  import opened Wrappers
  import opened Strings

  type Byte = b: int | 0 <= b < 256

  predicate IsDecimalDigit(c: char) {
    '0' <= c <= '9'
  }

  predicate IsHexDigit(c: char) {
    IsDecimalDigit(c) || 'a' <= c <= 'f' || 'A' <= c <= 'F'
  }

  predicate AllDecimal(s: string) {
    forall i :: 0 <= i < |s| ==> IsDecimalDigit(s[i])
  }

  predicate AllHex(s: string) {
    forall i :: 0 <= i < |s| ==> IsHexDigit(s[i])
  }

  /** The characters an address literal can be written with. */
  predicate IsAddressChar(c: char) {
    IsHexDigit(c) || c == '.' || c == ':'
  }

  predicate AddressChars(s: string) {
    forall i :: 0 <= i < |s| ==> IsAddressChar(s[i])
  }

  function DigitValue(c: char): (d: nat)
    requires IsHexDigit(c)
    ensures d < 16
    ensures IsDecimalDigit(c) ==> d < 10
  {
    if IsDecimalDigit(c) then c as int - '0' as int
    else if 'a' <= c <= 'f' then c as int - 'a' as int + 10
    else c as int - 'A' as int + 10
  }

  function DigitChar(d: nat): (c: char)
    requires d < 10
    ensures IsDecimalDigit(c) && DigitValue(c) == d
  {
    ('0' as int + d) as char
  }

  /** Value of a decimal numeral, most significant digit first. */
  function DecimalValue(s: string): nat
    requires AllDecimal(s)
  {
    if s == [] then 0 else DecimalValue(s[..|s| - 1]) * 10 + DigitValue(s[|s| - 1])
  }

  function Pow16(n: nat): nat {
    if n == 0 then 1 else 16 * Pow16(n - 1)
  }

  /** Value of a hexadecimal numeral; it is below 16 to the numeral's length. */
  function HexValue(s: string): (v: nat)
    requires AllHex(s)
    ensures v < Pow16(|s|)
  {
    if s == [] then 0 else HexValue(s[..|s| - 1]) * 16 + DigitValue(s[|s| - 1])
  }

  /** A field of a dotted quad: decimal digits, no leading zero, at most 255. */
  predicate ValidOctet(f: string) {
    f != [] && AllDecimal(f) && (f[0] == '0' ==> |f| == 1) && DecimalValue(f) <= 255
  }

  /** The four bytes a dotted-quad literal spells, or [] when `s` is not one. */
  function ParseIPv4(s: string): (ip: seq<Byte>)
    ensures ip == [] || |ip| == 4
  {
    var f := Split(s, '.');
    if |f| == 4 && ValidOctet(f[0]) && ValidOctet(f[1]) && ValidOctet(f[2]) && ValidOctet(f[3])
    then [DecimalValue(f[0]), DecimalValue(f[1]), DecimalValue(f[2]), DecimalValue(f[3])]
    else []
  }

  /** A colon-separated field of an IPv6 literal: one to four hex digits. */
  predicate ValidHexField(f: string) {
    1 <= |f| <= 4 && AllHex(f)
  }

  /**
   * The 16-bit groups that colon-separated `fields` write, each below 2^16;
   * when `v4Tail`, a last field holding a dot must be a dotted quad and
   * stands for two groups. None when some field is malformed.
   */
  function Groups(fields: seq<string>, v4Tail: bool): (g: Option<seq<nat>>)
    ensures g.Some? ==> forall i :: 0 <= i < |g.value| ==> g.value[i] < 0x1_0000
  {
    if fields == [] then Some([])
    else if |fields| == 1 && v4Tail && '.' in fields[0] then
      var q := ParseIPv4(fields[0]);
      if q == [] then None else Some([q[0] as nat * 256 + q[1] as nat, q[2] as nat * 256 + q[3] as nat])
    else if ValidHexField(fields[0]) then
      var v := HexValue(fields[0]);
      assert v < 0x1_0000 by {
        assert Pow16(|fields[0]|) <= Pow16(4);
      }
      match Groups(fields[1..], v4Tail)
      case None => None
      case Some(rest) => Some([v] + rest)
    else None
  }

  /** Position of the first "::" in `s`. */
  function DoubleColon(s: string): (i: Option<nat>)
    ensures i.Some? ==> i.value + 1 < |s| && s[i.value] == ':' && s[i.value + 1] == ':'
  {
    if |s| < 2 then None
    else if s[0] == ':' && s[1] == ':' then Some(0)
    else match DoubleColon(s[1..])
      case None => None
      case Some(i) => Some(i + 1)
  }

  /** The groups of one side of a "::"; an empty side has none. */
  function SideGroups(side: string, v4Tail: bool): (g: Option<seq<nat>>)
    ensures g.Some? ==> forall i :: 0 <= i < |g.value| ==> g.value[i] < 0x1_0000
  {
    if side == [] then Some([]) else Groups(Split(side, ':'), v4Tail)
  }

  function Zeros(n: nat): (z: seq<nat>)
    ensures |z| == n && forall i :: 0 <= i < n ==> z[i] == 0
  {
    seq(n, _ => 0)
  }

  /** The eight groups of a literal with "::": the left side's, then zero groups, then the right side's. */
  function Expand(left: seq<nat>, right: seq<nat>): (g: seq<nat>)
    requires |left| + |right| < 8
    requires forall i :: 0 <= i < |left| ==> left[i] < 0x1_0000
    requires forall i :: 0 <= i < |right| ==> right[i] < 0x1_0000
    ensures |g| == 8 && forall i :: 0 <= i < |g| ==> g[i] < 0x1_0000
  {
    var z := Zeros(8 - |left| - |right|);
    assert forall i :: 0 <= i < |left| ==> (left + z + right)[i] == left[i];
    assert forall i :: |left| + |z| <= i < 8 ==> (left + z + right)[i] == right[i - |left| - |z|];
    left + z + right
  }

  /** Big-endian bytes of 16-bit groups. */
  function GroupBytes(g: seq<nat>): (b: seq<Byte>)
    requires forall i :: 0 <= i < |g| ==> g[i] < 0x1_0000
    ensures |b| == 2 * |g|
  {
    if g == [] then [] else [g[0] / 256, g[0] % 256] + GroupBytes(g[1..])
  }

  /** The 16 bytes a colon-form literal spells, or [] when `s` is not one. */
  function ParseIPv6(s: string): (ip: seq<Byte>)
    ensures ip == [] || |ip| == 16
  {
    match DoubleColon(s)
    case None =>
      var g := Groups(Split(s, ':'), true);
      if g.Some? && |g.value| == 8 then GroupBytes(g.value) else []
    case Some(i) =>
      var left := SideGroups(s[..i], false);
      var right := SideGroups(s[i + 2..], true);
      if left.Some? && right.Some? && |left.value| + |right.value| < 8
      then GroupBytes(Expand(left.value, right.value))
      else []
  }

  /** Which parser netip hands a string to: the first '.', ':' or '%' decides. */
  datatype Syntax = Dotted | Colon | Neither

  function SyntaxOf(s: string): Syntax {
    if s == [] then Neither
    else if s[0] == '.' then Dotted
    else if s[0] == ':' then Colon
    else if s[0] == '%' then Neither
    else SyntaxOf(s[1..])
  }

  /** The first twelve bytes of an IPv4 address held in 16 bytes (::ffff:a.b.c.d). */
  const V4InV6Prefix: seq<Byte> := [0, 0, 0, 0, 0, 0, 0, 0, 0, 0, 0xff, 0xff]

  /** net.ParseIP: the 16-byte address `s` spells, or [] (nil) when it spells none. */
  function ParseIP(s: string): (ip: seq<Byte>)
    ensures ip == [] || |ip| == 16
  {
    match SyntaxOf(s)
    case Dotted =>
      var q := ParseIPv4(s);
      if q == [] then [] else V4InV6Prefix + q
    case Colon => ParseIPv6(s)
    case Neither => []
  }

  /** net.IP.To4: the 4-byte form of an IPv4 address, [] (nil) for any other value. */
  function To4(ip: seq<Byte>): seq<Byte> {
    if |ip| == 4 then ip
    else if |ip| == 16 && ip[..12] == V4InV6Prefix then ip[12..]
    else []
  }

  /** net.IP.To16: the 16-byte form of an address, [] (nil) for a value of any other length. */
  function To16(ip: seq<Byte>): seq<Byte> {
    if |ip| == 4 then V4InV6Prefix + ip
    else if |ip| == 16 then ip
    else []
  }
}

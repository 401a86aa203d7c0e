/**
 * What the address model promises: a dotted quad is read back exactly as
 * written and only in its canonical spelling; an IPv4 address written in
 * IPv6 notation (::ffff:a.b.c.d) reads as the same IPv4 address; ::1 and
 * the full eight-group colon form read as their sixteen bytes; and
 * anything net.ParseIP accepts is spelled with hex digits, dots and colons
 * only, so a scoped address ("%zone") is refused.
 */
module AddressProperties {
  import opened Wrappers
  import opened Strings
  import opened Address

  /** The canonical decimal numeral of `n`: no leading zero. */
  function FormatDecimal(n: nat): (s: string)
    ensures s != [] && AllDecimal(s)
    ensures s[0] == '0' ==> |s| == 1
  {
    if n < 10 then [DigitChar(n)] else FormatDecimal(n / 10) + [DigitChar(n % 10)]
  }

  /** The dotted-quad spelling of four bytes. */
  function FormatIPv4(o: seq<Byte>): string
    requires |o| == 4
  {
    Join([FormatDecimal(o[0]), FormatDecimal(o[1]), FormatDecimal(o[2]), FormatDecimal(o[3])], '.')
  }

  lemma {:induction false} DecimalOfFormat(n: nat)
    ensures DecimalValue(FormatDecimal(n)) == n
  {
    if n >= 10 {
      var s := FormatDecimal(n);
      DecimalOfFormat(n / 10);
      assert s[..|s| - 1] == FormatDecimal(n / 10);
    }
  }

  /** The leading digit of a numeral bounds its value from below. */
  lemma {:induction false} LeadingDigitBound(s: string)
    requires s != [] && AllDecimal(s)
    ensures DecimalValue(s) >= DigitValue(s[0])
    decreases |s|
  {
    if |s| > 1 {
      LeadingDigitBound(s[..|s| - 1]);
    }
  }

  /** A numeral without leading zero is the canonical spelling of its value. */
  lemma {:induction false} FormatOfDecimal(s: string)
    requires s != [] && AllDecimal(s) && (s[0] == '0' ==> |s| == 1)
    ensures FormatDecimal(DecimalValue(s)) == s
    decreases |s|
  {
    if |s| > 1 {
      var p := s[..|s| - 1];
      LeadingDigitBound(p);
      FormatOfDecimal(p);
      var v := DecimalValue(p);
      assert DecimalValue(s) == v * 10 + DigitValue(s[|s| - 1]);
      assert DecimalValue(s) / 10 == v && DecimalValue(s) % 10 == DigitValue(s[|s| - 1]);
      assert DigitChar(DigitValue(s[|s| - 1])) == s[|s| - 1];
      assert s == p + [s[|s| - 1]];
    } else {
      assert DigitChar(DigitValue(s[0])) == s[0];
    }
  }

  /** Every byte's canonical numeral is a valid dotted-quad field. */
  lemma OctetOfFormat(b: Byte)
    ensures ValidOctet(FormatDecimal(b)) && DecimalValue(FormatDecimal(b)) == b
    ensures '.' !in FormatDecimal(b) && ':' !in FormatDecimal(b)
  {
    DecimalOfFormat(b);
    var s := FormatDecimal(b);
    assert forall i :: 0 <= i < |s| ==> s[i] != '.' && s[i] != ':';
  }

  /** Reading a formatted dotted quad gives the four bytes back. */
  lemma ParseFormatIPv4(o: seq<Byte>)
    requires |o| == 4
    ensures ParseIPv4(FormatIPv4(o)) == o
  {
    var parts := [FormatDecimal(o[0]), FormatDecimal(o[1]), FormatDecimal(o[2]), FormatDecimal(o[3])];
    OctetOfFormat(o[0]);
    OctetOfFormat(o[1]);
    OctetOfFormat(o[2]);
    OctetOfFormat(o[3]);
    QuadSplit(parts);
    ParseIPv4OfFields(FormatIPv4(o), parts);
  }

  /** Four dot-free pieces joined with dots split back into those pieces. */
  lemma QuadSplit(parts: seq<string>)
    requires |parts| == 4
    requires '.' !in parts[0] && '.' !in parts[1] && '.' !in parts[2] && '.' !in parts[3]
    ensures Split(Join(parts, '.'), '.') == parts
  {
    SplitJoin(parts, '.');
  }

  /** A string that splits into four valid octets reads as their values. */
  lemma ParseIPv4OfFields(s: string, f: seq<string>)
    requires Split(s, '.') == f && |f| == 4
    requires ValidOctet(f[0]) && ValidOctet(f[1]) && ValidOctet(f[2]) && ValidOctet(f[3])
    ensures ParseIPv4(s) == [DecimalValue(f[0]), DecimalValue(f[1]), DecimalValue(f[2]), DecimalValue(f[3])]
  {
  }

  /** A dotted quad net.ParseIP accepts is the canonical spelling of its bytes. */
  lemma FormatParseIPv4(s: string)
    requires ParseIPv4(s) != []
    ensures FormatIPv4(ParseIPv4(s)) == s
  {
    var f := Split(s, '.');
    FormatOfDecimal(f[0]);
    FormatOfDecimal(f[1]);
    FormatOfDecimal(f[2]);
    FormatOfDecimal(f[3]);
    JoinSplit(s, '.');
    assert f == [f[0], f[1], f[2], f[3]];
  }

  /** A dotted quad contains a dot and no colon. */
  lemma FormatIPv4Shape(o: seq<Byte>)
    requires |o| == 4
    ensures '.' in FormatIPv4(o) && ':' !in FormatIPv4(o)
    ensures SyntaxOf(FormatIPv4(o)) == Dotted
  {
    var parts := [FormatDecimal(o[0]), FormatDecimal(o[1]), FormatDecimal(o[2]), FormatDecimal(o[3])];
    OctetOfFormat(o[0]);
    OctetOfFormat(o[1]);
    OctetOfFormat(o[2]);
    OctetOfFormat(o[3]);
    NoColonJoin(parts);
    DigitsThenDot(parts);
  }

  /** Joining with dots pieces whose first is all digits gives a dotted literal with a dot in it. */
  lemma DigitsThenDot(parts: seq<string>)
    requires |parts| > 1 && AllDecimal(parts[0])
    ensures '.' in Join(parts, '.') && SyntaxOf(Join(parts, '.')) == Dotted
  {
    var rest := ['.'] + Join(parts[1..], '.');
    assert Join(parts, '.') == parts[0] + rest;
    assert Join(parts, '.')[|parts[0]|] == '.';
    SyntaxOfDigitsThenDot(parts[0], rest);
  }

  lemma {:induction false} NoColonJoin(parts: seq<string>)
    requires forall i :: 0 <= i < |parts| ==> ':' !in parts[i]
    ensures ':' !in Join(parts, '.')
    decreases |parts|
  {
    if |parts| > 1 {
      NoColonJoin(parts[1..]);
    }
  }

  lemma {:induction false} SyntaxOfDigitsThenDot(d: string, rest: string)
    requires AllDecimal(d) && rest != [] && rest[0] == '.'
    ensures SyntaxOf(d + rest) == Dotted
    decreases |d|
  {
    if d != [] {
      assert (d + rest)[1..] == d[1..] + rest;
      SyntaxOfDigitsThenDot(d[1..], rest);
    } else {
      assert d + rest == rest;
    }
  }

  /** net.ParseIP reads a dotted quad as that IPv4 address, and To4 gives its four bytes back. */
  lemma DottedQuadIsIPv4(o: seq<Byte>)
    requires |o| == 4
    ensures ParseIP(FormatIPv4(o)) == V4InV6Prefix + o
    ensures To4(ParseIP(FormatIPv4(o))) == o
  {
    FormatIPv4Shape(o);
    ParseFormatIPv4(o);
    assert (V4InV6Prefix + o)[..12] == V4InV6Prefix;
  }

  lemma SplitWithoutSeparator(s: string, sep: char)
    requires sep !in s
    ensures Split(s, sep) == [s]
  {
    SplitPrefix(s, sep, []);
    assert s + [] == s;
    assert Split([], sep) == [[]];
  }

  lemma HexFFFF()
    ensures ValidHexField("ffff") && HexValue("ffff") == 0xffff
  {
    assert "ffff"[..3] == "fff" && "fff"[..2] == "ff" && "ff"[..1] == "f" && "f"[..0] == [];
  }

  /** ":" followed by a field without colons splits into an empty field and that field. */
  lemma ColonThenField(d: string)
    requires ':' !in d
    ensures Split(":" + d, ':') == [[], d]
  {
    SplitWithoutSeparator(d, ':');
    assert (":" + d)[1..] == d;
  }

  /** The fields "ffff" and a dotted quad are the groups ffff and the quad's two halves. */
  lemma GroupsOfMapped(d: string, o: seq<Byte>)
    requires |o| == 4 && ParseIPv4(d) == o && '.' in d
    ensures Groups(["ffff", d], true) == Some([0xffff, o[0] as nat * 256 + o[1] as nat, o[2] as nat * 256 + o[3] as nat])
  {
    var a := o[0] as nat * 256 + o[1] as nat;
    var b := o[2] as nat * 256 + o[3] as nat;
    HexFFFF();
    assert Groups([d], true) == Some([a, b]);
    assert ["ffff", d][1..] == [d];
    assert [0xffff] + [a, b] == [0xffff, a, b];
  }

  /** The part after "::" in ::ffff:a.b.c.d gives the groups ffff and the quad's two halves. */
  lemma MappedRightGroups(d: string, o: seq<Byte>)
    requires |o| == 4 && ParseIPv4(d) == o && '.' in d && ':' !in d
    ensures SideGroups("ffff" + (":" + d), true)
      == Some([0xffff, o[0] as nat * 256 + o[1] as nat, o[2] as nat * 256 + o[3] as nat])
  {
    SplitPrefix("ffff", ':', ":" + d);
    ColonThenField(d);
    assert "ffff" + [] == "ffff";
    assert Split("ffff" + (":" + d), ':') == ["ffff", d];
    GroupsOfMapped(d, o);
  }

  /** Where ::ffff:d splits: at its start, into an empty left side and "ffff:" + d. */
  lemma MappedSides(d: string)
    ensures DoubleColon("::ffff:" + d) == Some(0)
    ensures SyntaxOf("::ffff:" + d) == Colon
    ensures ("::ffff:" + d)[..0] == [] && ("::ffff:" + d)[2..] == "ffff" + (":" + d)
  {
  }

  /** A literal starting with "::" is its right side's groups after enough zero groups to make eight. */
  lemma LeadingDoubleColon(s: string, r: seq<nat>)
    requires SyntaxOf(s) == Colon && DoubleColon(s) == Some(0)
    requires s[..0] == [] && SideGroups(s[2..], true) == Some(r) && |r| < 8
    ensures forall i :: 0 <= i < |r| ==> r[i] < 0x1_0000
    ensures ParseIP(s) == GroupBytes(Expand([], r))
  {
    assert ParseIP(s) == ParseIPv6(s);
    ParseIPv6AtZero(s, r);
  }

  lemma ParseIPv6AtZero(s: string, r: seq<nat>)
    requires DoubleColon(s) == Some(0)
    requires SideGroups(s[2..], true) == Some(r) && |r| < 8
    ensures forall i :: 0 <= i < |r| ==> r[i] < 0x1_0000
    ensures ParseIPv6(s) == GroupBytes(Expand([], r))
  {
    var left := SideGroups(s[..0], false);
    assert left == Some([]);
    var right := SideGroups(s[0 + 2..], true);
    assert right == Some(r);
  }

  /**
   * An IPv4 address in IPv6 notation, ::ffff:a.b.c.d, parses to the same
   * 16 bytes as a.b.c.d, so To4 sees an IPv4 address.
   */
  lemma MappedIPv4IsIPv4(o: seq<Byte>)
    requires |o| == 4
    ensures ParseIP("::ffff:" + FormatIPv4(o)) == V4InV6Prefix + o
    ensures To4(ParseIP("::ffff:" + FormatIPv4(o))) == o
  {
    var d := FormatIPv4(o);
    var a := o[0] as nat * 256 + o[1] as nat;
    var b := o[2] as nat * 256 + o[3] as nat;
    FormatIPv4Shape(o);
    ParseFormatIPv4(o);
    MappedSides(d);
    MappedRightGroups(d, o);
    LeadingDoubleColon("::ffff:" + d, [0xffff, a, b]);
    GroupBytesOfPrefix(o, a, b);
    assert (V4InV6Prefix + o)[..12] == V4InV6Prefix;
  }

  lemma {:induction false} GroupBytesAppend(g1: seq<nat>, g2: seq<nat>)
    requires forall i :: 0 <= i < |g1| ==> g1[i] < 0x1_0000
    requires forall i :: 0 <= i < |g2| ==> g2[i] < 0x1_0000
    ensures GroupBytes(g1 + g2) == GroupBytes(g1) + GroupBytes(g2)
    decreases |g1|
  {
    if g1 != [] {
      assert (g1 + g2)[1..] == g1[1..] + g2;
      GroupBytesAppend(g1[1..], g2);
    } else {
      assert g1 + g2 == g2;
    }
  }

  /** The bytes of the groups ffff, a and b, where a and b are the halves of four bytes. */
  lemma GroupBytesOfTail(o: seq<Byte>, a: nat, b: nat)
    requires |o| == 4 && a == o[0] as nat * 256 + o[1] as nat && b == o[2] as nat * 256 + o[3] as nat
    ensures a < 0x1_0000 && b < 0x1_0000
    ensures GroupBytes([0xffff, a, b]) == [0xff, 0xff] + o
  {
    assert a / 256 == o[0] && a % 256 == o[1];
    assert b / 256 == o[2] && b % 256 == o[3];
    assert [0xffff, a, b][1..] == [a, b] && [a, b][1..] == [b] && [b][1..] == [];
    assert GroupBytes([b]) == [o[2], o[3]];
    assert GroupBytes([a, b]) == [o[0], o[1]] + [o[2], o[3]];
    assert GroupBytes([0xffff, a, b]) == [0xff, 0xff] + ([o[0], o[1]] + [o[2], o[3]]);
    assert o == [o[0], o[1]] + [o[2], o[3]];
  }

  /** The bytes of five zero groups, ffff and an IPv4 address split into two groups. */
  lemma GroupBytesOfPrefix(o: seq<Byte>, a: nat, b: nat)
    requires |o| == 4 && a == o[0] as nat * 256 + o[1] as nat && b == o[2] as nat * 256 + o[3] as nat
    ensures a < 0x1_0000 && b < 0x1_0000
    ensures GroupBytes(Expand([], [0xffff, a, b])) == V4InV6Prefix + o
  {
    var z: seq<nat> := [0, 0, 0, 0, 0];
    GroupBytesOfTail(o, a, b);
    assert Expand([], [0xffff, a, b]) == z + [0xffff, a, b];
    GroupBytesAppend(z, [0xffff, a, b]);
    assert GroupBytes(z) == [0, 0, 0, 0, 0, 0, 0, 0, 0, 0];
    assert V4InV6Prefix + o == [0, 0, 0, 0, 0, 0, 0, 0, 0, 0] + ([0xff, 0xff] + o);
  }

  /**
   * The loopback address ::1 reads as fifteen zero bytes and a one. The
   * address is a parameter fixed by the precondition rather than a literal
   * in the ensures: with a literal argument the verifier would evaluate the
   * whole parser on it, which is far more costly than the proof below.
   */
  lemma LoopbackIsIPv6(s: string)
    requires s == "::1"
    ensures ParseIP(s) == [0, 0, 0, 0, 0, 0, 0, 0, 0, 0, 0, 0, 0, 0, 0, 1]
  {
    assert s[2..] == "1" && s[..0] == [];
    assert DoubleColon(s) == Some(0) && SyntaxOf(s) == Colon;
    GroupOfOne();
    LeadingDoubleColon(s, [1]);
    LoopbackBytes();
  }

  lemma GroupOfOne()
    ensures SideGroups("1", true) == Some([1])
  {
    SplitWithoutSeparator("1", ':');
    var f := "1";
    assert f[..0] == [] && '.' !in f && ValidHexField(f);
    assert HexValue(f) == 1;
    var fields: seq<string> := [f];
    assert fields[0] == f && fields[1..] == [];
    var one: seq<nat> := [1];
    assert Groups(fields[1..], true) == Some([]);
    assert one + [] == one;
  }

  lemma LoopbackBytes()
    ensures GroupBytes(Expand([], [1])) == [0, 0, 0, 0, 0, 0, 0, 0, 0, 0, 0, 0, 0, 0, 0, 1]
  {
    var g: seq<nat> := [0, 0, 0, 0, 0, 0, 0, 1];
    assert Zeros(7) == [0, 0, 0, 0, 0, 0, 0];
    assert Expand([], [1]) == g;
  }

  /** The lower-case hex digit of a value below 16. */
  function HexDigitChar(d: nat): (c: char)
    requires d < 16
    ensures IsHexDigit(c) && DigitValue(c) == d
  {
    if d < 10 then DigitChar(d) else ('a' as int + d - 10) as char
  }

  /** A 16-bit group as four hex digits, leading zeros kept. */
  function FormatHex4(v: nat): string
    requires v < 0x1_0000
  {
    var a := v / 16;
    var b := a / 16;
    [HexDigitChar(b / 16), HexDigitChar(b % 16), HexDigitChar(a % 16), HexDigitChar(v % 16)]
  }

  /** Four hex digits are a valid group field, without '.', ':' or '%', and read back as the group. */
  lemma HexFieldOfFormat(v: nat)
    requires v < 0x1_0000
    ensures var f := FormatHex4(v);
      && ValidHexField(f) && HexValue(f) == v
      && '.' !in f && ':' !in f && '%' !in f
  {
    var f := FormatHex4(v);
    var a := v / 16;
    var b := a / 16;
    assert f[..3] == [f[0], f[1], f[2]] && f[..3][..2] == [f[0], f[1]];
    assert f[..3][..2][..1] == [f[0]] && [f[0]][..0] == [];
    assert HexValue([f[0]]) == b / 16;
    assert HexValue([f[0], f[1]]) == b;
    assert HexValue([f[0], f[1], f[2]]) == a;
  }

  /** The four-digit fields of a sequence of groups. */
  function HexFields(g: seq<nat>): (f: seq<string>)
    requires forall i :: 0 <= i < |g| ==> g[i] < 0x1_0000
    ensures |f| == |g|
  {
    if g == [] then [] else [FormatHex4(g[0])] + HexFields(g[1..])
  }

  lemma {:induction false} HexFieldsAt(g: seq<nat>, i: nat)
    requires forall j :: 0 <= j < |g| ==> g[j] < 0x1_0000
    requires i < |g|
    ensures HexFields(g)[i] == FormatHex4(g[i])
    decreases |g|
  {
    if i > 0 {
      HexFieldsAt(g[1..], i - 1);
    }
  }

  /** The full colon form of eight groups: four hex digits each, joined with ':'. */
  function FormatIPv6(g: seq<nat>): string
    requires |g| == 8 && forall i :: 0 <= i < 8 ==> g[i] < 0x1_0000
  {
    Join(HexFields(g), ':')
  }

  /** The groups of four-digit fields are the values they spell. */
  lemma {:induction false} GroupsOfHexFields(g: seq<nat>)
    requires forall i :: 0 <= i < |g| ==> g[i] < 0x1_0000
    ensures Groups(HexFields(g), true) == Some(g)
    decreases |g|
  {
    if g != [] {
      var f := HexFields(g);
      HexFieldOfFormat(g[0]);
      assert f[0] == FormatHex4(g[0]) && f[1..] == HexFields(g[1..]);
      GroupsOfHexFields(g[1..]);
      assert g == [g[0]] + g[1..];
    }
  }

  /** Colon-free text in front of a string without "::" does not create one. */
  lemma {:induction false} DoubleColonAfterColonFree(a: string, b: string)
    requires ':' !in a && DoubleColon(b) == None
    ensures DoubleColon(a + b) == None
    decreases |a|
  {
    if a == [] {
      assert a + b == b;
    } else if |a + b| >= 2 {
      assert (a + b)[0] == a[0];
      assert (a + b)[1..] == a[1..] + b;
      DoubleColonAfterColonFree(a[1..], b);
    }
  }

  lemma JoinCons(parts: seq<string>, sep: char)
    requires |parts| > 1
    ensures Join(parts, sep) == parts[0] + ([sep] + Join(parts[1..], sep))
  {
    assert parts[0] + [sep] + Join(parts[1..], sep) == parts[0] + ([sep] + Join(parts[1..], sep));
  }

  lemma JoinHead(parts: seq<string>, sep: char)
    requires |parts| >= 1 && parts[0] != []
    ensures Join(parts, sep) != [] && Join(parts, sep)[0] == parts[0][0]
  {
  }

  /** Non-empty colon-free fields joined with ':' hold no "::". */
  lemma {:induction false} JoinNoDoubleColon(parts: seq<string>)
    requires |parts| >= 1
    requires forall i :: 0 <= i < |parts| ==> parts[i] != [] && ':' !in parts[i]
    ensures DoubleColon(Join(parts, ':')) == None
    decreases |parts|
  {
    if |parts| == 1 {
      DoubleColonAfterColonFree(parts[0], []);
      assert parts[0] + [] == parts[0];
    } else {
      var rest := Join(parts[1..], ':');
      JoinNoDoubleColon(parts[1..]);
      JoinHead(parts[1..], ':');
      var t := [':'] + rest;
      assert t[1..] == rest && t[1] == rest[0];
      assert DoubleColon(t) == None;
      DoubleColonAfterColonFree(parts[0], t);
      JoinCons(parts, ':');
    }
  }

  lemma {:induction false} SyntaxOfHexThenColon(d: string, rest: string)
    requires AllHex(d) && rest != [] && rest[0] == ':'
    ensures SyntaxOf(d + rest) == Colon
    decreases |d|
  {
    if d != [] {
      assert (d + rest)[1..] == d[1..] + rest;
      SyntaxOfHexThenColon(d[1..], rest);
    } else {
      assert d + rest == rest;
    }
  }

  /** Eight groups in the full colon form parse back to their sixteen bytes. */
  lemma ParseFormatIPv6(g: seq<nat>)
    requires |g| == 8 && forall i :: 0 <= i < 8 ==> g[i] < 0x1_0000
    ensures ParseIP(FormatIPv6(g)) == GroupBytes(g)
  {
    var parts := HexFields(g);
    var s := FormatIPv6(g);
    HexFieldsAreFields(g);
    SplitJoin(parts, ':');
    JoinNoDoubleColon(parts);
    GroupsOfHexFields(g);
    var rest := [':'] + Join(parts[1..], ':');
    JoinCons(parts, ':');
    SyntaxOfHexThenColon(parts[0], rest);
    FullColonForm(s, g);
  }

  lemma HexFieldsAreFields(g: seq<nat>)
    requires forall i :: 0 <= i < |g| ==> g[i] < 0x1_0000
    ensures forall i :: 0 <= i < |g| ==>
      HexFields(g)[i] != [] && ':' !in HexFields(g)[i] && AllHex(HexFields(g)[i])
  {
    forall i | 0 <= i < |g| ensures HexFields(g)[i] != [] && ':' !in HexFields(g)[i] && AllHex(HexFields(g)[i]) {
      HexFieldsAt(g, i);
      HexFieldOfFormat(g[i]);
    }
  }

  /** A colon-form literal without "::" whose fields give eight groups reads as their bytes. */
  lemma FullColonForm(s: string, g: seq<nat>)
    requires SyntaxOf(s) == Colon && DoubleColon(s) == None
    requires Groups(Split(s, ':'), true) == Some(g) && |g| == 8
    ensures ParseIP(s) == GroupBytes(g)
  {
    assert ParseIP(s) == ParseIPv6(s);
  }

  lemma {:induction false} JoinAddressChars(parts: seq<string>, sep: char)
    requires IsAddressChar(sep)
    requires forall i :: 0 <= i < |parts| ==> AddressChars(parts[i])
    ensures AddressChars(Join(parts, sep))
    decreases |parts|
  {
    if |parts| > 1 {
      JoinAddressChars(parts[1..], sep);
    }
  }

  lemma IPv4Chars(s: string)
    requires ParseIPv4(s) != []
    ensures AddressChars(s)
  {
    var f := Split(s, '.');
    assert forall i :: 0 <= i < 4 ==> AllDecimal(f[i]);
    JoinSplit(s, '.');
    JoinAddressChars(f, '.');
  }

  lemma {:induction false} GroupsChars(fields: seq<string>, v4Tail: bool)
    requires Groups(fields, v4Tail).Some?
    ensures forall i :: 0 <= i < |fields| ==> AddressChars(fields[i])
    decreases |fields|
  {
    if fields == [] {
    } else if |fields| == 1 && v4Tail && '.' in fields[0] {
      IPv4Chars(fields[0]);
    } else {
      GroupsChars(fields[1..], v4Tail);
      assert forall i :: 1 <= i < |fields| ==> fields[i] == fields[1..][i - 1];
    }
  }

  lemma SideChars(side: string, v4Tail: bool)
    requires SideGroups(side, v4Tail).Some?
    ensures AddressChars(side)
  {
    if side != [] {
      GroupsChars(Split(side, ':'), v4Tail);
      JoinSplit(side, ':');
      JoinAddressChars(Split(side, ':'), ':');
    }
  }

  lemma IPv6Chars(s: string)
    requires ParseIPv6(s) != []
    ensures AddressChars(s)
  {
    match DoubleColon(s)
    case None =>
      SideChars(s, true);
    case Some(i) =>
      assert SideGroups(s[..i], false).Some? && SideGroups(s[i + 2..], true).Some?;
      SideChars(s[..i], false);
      SideChars(s[i + 2..], true);
      AroundDoubleColon(s, i);
  }

  /** A string is made of address characters when the parts on both sides of a "::" are. */
  lemma AroundDoubleColon(s: string, i: nat)
    requires i + 1 < |s| && s[i] == ':' && s[i + 1] == ':'
    requires AddressChars(s[..i]) && AddressChars(s[i + 2..])
    ensures AddressChars(s)
  {
    forall j | 0 <= j < |s| ensures IsAddressChar(s[j]) {
      if j < i {
        assert s[j] == s[..i][j];
      } else if j >= i + 2 {
        assert s[j] == s[i + 2..][j - i - 2];
      }
    }
  }

  /** Whatever net.ParseIP accepts is written with hex digits, dots and colons only. */
  lemma AcceptedAddressChars(s: string)
    ensures ParseIP(s) != [] ==> AddressChars(s)
  {
    match SyntaxOf(s)
    case Dotted => if ParseIPv4(s) != [] { IPv4Chars(s); }
    case Colon => if ParseIPv6(s) != [] { IPv6Chars(s); }
    case Neither =>
  }

  /**
   * The views of a 16-byte address: To16 is the address itself, and To4 is
   * not nil exactly for the IPv4-in-IPv6 prefix, giving the last four bytes.
   */
  lemma ViewsOf16(ip: seq<Byte>)
    requires |ip| == 16
    ensures To16(ip) == ip
    ensures To4(ip) != [] <==> ip[..12] == V4InV6Prefix
    ensures To4(ip) != [] ==> |To4(ip)| == 4 && V4InV6Prefix + To4(ip) == ip
  {
    if ip[..12] == V4InV6Prefix {
      assert ip == ip[..12] + ip[12..];
    }
  }

  /** net.ParseIP refuses every string holding a '%', so no scoped address is accepted. */
  lemma ZoneRefused(s: string)
    requires '%' in s
    ensures ParseIP(s) == []
  {
    var i :| 0 <= i < |s| && s[i] == '%';
    assert !IsAddressChar(s[i]);
    AcceptedAddressChars(s);
  }
}

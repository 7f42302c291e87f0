/**
 * The parts of Go's `net` package the access gate relies on: `net.IP`,
 * `net.IPNet`, `net.ParseIP`, `net.ParseCIDR` and `(*IPNet).Contains`.
 * Addresses are byte sequences; the nil `net.IP` that `ParseIP` returns for
 * text it cannot parse is the empty sequence, exactly as a nil Go slice has
 * length 0. Text is parsed in IPv4 dotted-quad form only.
 */
module Net {
  import opened Wrappers
  import opened GoStrings
  import opened Decimal

  type byte = bv8

  /** A `net.IP`: 4 bytes for IPv4, 16 for IPv6, empty for the nil IP. */
  type IP = seq<byte>

  const IPv4Len: nat := 4
  const IPv6Len: nat := 16

  /**
   * A `net.IPNet` as `ParseCIDR` builds it: a base address and the length of
   * its CIDR mask (Go stores the mask bytes; every mask built from CIDR text
   * is `prefix` one bits followed by zeros).
   */
  datatype IPNet = IPNet(ip: IP, prefix: nat)

  /** The prefix length fits the address family. */
  predicate ValidNet(n: IPNet)
  {
    (|n.ip| == IPv4Len && n.prefix <= 8 * IPv4Len) || (|n.ip| == IPv6Len && n.prefix <= 8 * IPv6Len)
  }

  // ---------------------------------------------------------------- masks

  /** The byte whose leading `r` bits are set. */
  function Ones(r: nat): byte
    requires r <= 8
  {
    match r
    case 0 => 0x00 case 1 => 0x80 case 2 => 0xC0 case 3 => 0xE0 case 4 => 0xF0
    case 5 => 0xF8 case 6 => 0xFC case 7 => 0xFE case _ => 0xFF
  }

  /** The byte with only bit `j` set, bits counted from the most significant. */
  function BitMask(j: nat): byte
    requires j < 8
  {
    match j
    case 0 => 0x80 case 1 => 0x40 case 2 => 0x20 case 3 => 0x10
    case 4 => 0x08 case 5 => 0x04 case 6 => 0x02 case _ => 0x01
  }

  /** How many of the `prefix` leading mask bits fall into byte `i`. */
  function BitsInByte(prefix: nat, i: nat): (r: nat)
    ensures r <= 8
  {
    if prefix <= 8 * i then 0 else if prefix >= 8 * i + 8 then 8 else prefix - 8 * i
  }

  /** Byte `i` of the CIDR mask of length `prefix` (`net.CIDRMask`). */
  function MaskByte(prefix: nat, i: nat): byte
  {
    Ones(BitsInByte(prefix, i))
  }

  /** `ip.Mask(CIDRMask(prefix, 8 * |ip|))`: the address with the host bits cleared. */
  function Mask(ip: IP, prefix: nat): (m: IP)
    ensures |m| == |ip|
  {
    seq(|ip|, i requires 0 <= i < |ip| => ip[i] & MaskByte(prefix, i))
  }

  /**
   * `n.Contains(ip)`: the address has the network's length (so the nil IP
   * and an address of the other family never match) and agrees with the
   * base address under the mask.
   */
  predicate Contains(n: IPNet, ip: IP)
    ensures Contains(n, ip) ==> |ip| == |n.ip|
    ensures n.prefix == 0 ==> (Contains(n, ip) <==> |ip| == |n.ip|)
  {
    |ip| == |n.ip| &&
    forall i :: 0 <= i < |ip| ==> ip[i] & MaskByte(n.prefix, i) == n.ip[i] & MaskByte(n.prefix, i)
  }

  // ------------------------------------------------- bitwise reference view

  /** Bit `j` (from the most significant) of `x` and `y` agree. */
  predicate SameBit(x: byte, y: byte, j: nat)
    requires j < 8
  {
    x & BitMask(j) == y & BitMask(j)
  }

  /** The first `p` bits of the equally long addresses `a` and `b` agree. */
  predicate PrefixBitsAgree(a: IP, b: IP, p: nat)
    requires |a| == |b| && p <= 8 * |a|
  {
    forall k :: 0 <= k < p ==> SameBit(a[k / 8], b[k / 8], k % 8)
  }

  /** Adding mask bit `r - 1` adds the agreement of that bit. */
  lemma MaskStep(x: byte, y: byte, r: nat)
    requires 1 <= r <= 8
    ensures x & Ones(r) == y & Ones(r) <==> x & Ones(r - 1) == y & Ones(r - 1) && SameBit(x, y, r - 1)
  {
    // Each case is a fixed bit-vector identity; two at a time keeps the solver fast.
    if r <= 2 { MaskStepIn(x, y, r, 1); }
    else if r <= 4 { MaskStepIn(x, y, r, 3); }
    else if r <= 6 { MaskStepIn(x, y, r, 5); }
    else { MaskStepIn(x, y, r, 7); }
  }

  lemma MaskStepIn(x: byte, y: byte, r: nat, lo: nat)
    requires lo in {1, 3, 5, 7} && lo <= r <= lo + 1
    ensures x & Ones(r) == y & Ones(r) <==> x & Ones(r - 1) == y & Ones(r - 1) && SameBit(x, y, r - 1)
  {
    if r == lo {} else {}
  }

  /** The first `r` bits of `x` and `y` agree, bit by bit. */
  predicate AgreeUpTo(x: byte, y: byte, r: nat)
    requires r <= 8
  {
    r == 0 || (AgreeUpTo(x, y, r - 1) && SameBit(x, y, r - 1))
  }

  lemma {:induction false} MaskAgreeUpTo(x: byte, y: byte, r: nat)
    requires r <= 8
    ensures x & Ones(r) == y & Ones(r) <==> AgreeUpTo(x, y, r)
  {
    if r > 0 {
      MaskAgreeUpTo(x, y, r - 1);
      MaskStep(x, y, r);
    }
  }

  lemma {:induction false} AgreeUpToAll(x: byte, y: byte, r: nat)
    requires r <= 8
    ensures AgreeUpTo(x, y, r) <==> forall j :: 0 <= j < r ==> SameBit(x, y, j)
  {
    if r > 0 {
      AgreeUpToAll(x, y, r - 1);
    }
  }

  /** Two bytes agree under the mask of `r` leading ones exactly when their first `r` bits agree. */
  lemma ByteMaskAgree(x: byte, y: byte, r: nat)
    requires r <= 8
    ensures x & Ones(r) == y & Ones(r) <==> forall j :: 0 <= j < r ==> SameBit(x, y, j)
  {
    MaskAgreeUpTo(x, y, r);
    AgreeUpToAll(x, y, r);
  }

  /** Containment is CIDR membership: same family and the first `prefix` bits agree. */
  lemma ContainsIffPrefixBitsAgree(n: IPNet, ip: IP)
    requires ValidNet(n)
    ensures Contains(n, ip) <==> |ip| == |n.ip| && PrefixBitsAgree(ip, n.ip, n.prefix)
  {
    if |ip| == |n.ip| {
      if Contains(n, ip) {
        ContainedAgrees(n, ip);
      }
      if PrefixBitsAgree(ip, n.ip, n.prefix) {
        AgreeingContained(n, ip);
      }
    }
  }

  lemma ContainedAgrees(n: IPNet, ip: IP)
    requires ValidNet(n) && Contains(n, ip)
    ensures PrefixBitsAgree(ip, n.ip, n.prefix)
  {
    forall k | 0 <= k < n.prefix ensures SameBit(ip[k / 8], n.ip[k / 8], k % 8) {
      var i, j := k / 8, k % 8;
      assert 8 * i + j == k;
      assert j < BitsInByte(n.prefix, i);
      assert ip[i] & MaskByte(n.prefix, i) == n.ip[i] & MaskByte(n.prefix, i);
      ByteMaskAgree(ip[i], n.ip[i], BitsInByte(n.prefix, i));
    }
  }

  lemma AgreeingContained(n: IPNet, ip: IP)
    requires ValidNet(n) && |ip| == |n.ip| && PrefixBitsAgree(ip, n.ip, n.prefix)
    ensures Contains(n, ip)
  {
    forall i | 0 <= i < |ip|
      ensures ip[i] & MaskByte(n.prefix, i) == n.ip[i] & MaskByte(n.prefix, i)
    {
      var r := BitsInByte(n.prefix, i);
      forall j | 0 <= j < r ensures SameBit(ip[i], n.ip[i], j) {
        var k := 8 * i + j;
        assert k / 8 == i && k % 8 == j;
        assert k < n.prefix;
      }
      ByteMaskAgree(ip[i], n.ip[i], r);
    }
  }

  /** A network contains its own base address. */
  lemma ContainsBase(n: IPNet)
    ensures Contains(n, n.ip)
  {
  }

  /** The nil IP is in no network of either family. */
  lemma NilInNoNetwork(n: IPNet)
    requires ValidNet(n)
    ensures !Contains(n, [])
  {
  }

  /** A network of prefix 0 contains every address of its family. */
  lemma ZeroPrefixContainsFamily(n: IPNet, ip: IP)
    requires n.prefix == 0 && |ip| == |n.ip|
    ensures Contains(n, ip)
  {
  }

  // ---------------------------------------------------------------- parsing

  /** One dotted-quad field: one to three digits, no leading zero, at most 255. */
  function ParseOctet(f: string): Option<byte>
  {
    if 1 <= |f| <= 3 && AllDigits(f) && (|f| == 1 || f[0] != '0') && DigitsValue(f) <= 255
    then Some(DigitsValue(f) as byte)
    else None
  }

  /**
   * `net.ParseIP(s)` for IPv4 text: exactly four dot-separated octets give
   * an address, anything else the nil IP. The address is kept in the 4-byte
   * form that `IPNet.Contains` compares after `To4`, not in the 16-byte
   * IPv4-mapped form Go returns.
   */
  function ParseIP(s: string): (ip: IP)
    ensures ip == [] || |ip| == IPv4Len
  {
    ParseQuad(Split(s, '.'))
  }

  /** Four fields that are all octets give the address; anything else gives the nil IP. */
  function ParseQuad(fields: seq<string>): (ip: IP)
    ensures ip == [] || |ip| == IPv4Len
  {
    if |fields| != 4 then []
    else
      var a, b, c, d := ParseOctet(fields[0]), ParseOctet(fields[1]), ParseOctet(fields[2]), ParseOctet(fields[3]);
      if a.Some? && b.Some? && c.Some? && d.Some? then [a.value, b.value, c.value, d.value] else []
  }

  /** `ip.String()` for a 4-byte address: the dotted quad. */
  function FormatIP(ip: IP): string
    requires |ip| == IPv4Len
  {
    Join(Octets(ip), '.')
  }

  /** The decimal text of each byte of a 4-byte address. */
  function Octets(ip: IP): (fields: seq<string>)
    requires |ip| == IPv4Len
    ensures |fields| == 4
    ensures forall i :: 0 <= i < 4 ==> fields[i] == Itoa(ip[i] as int)
  {
    [Itoa(ip[0] as int), Itoa(ip[1] as int), Itoa(ip[2] as int), Itoa(ip[3] as int)]
  }

  /**
   * `net.ParseCIDR(s)`: address text, `/`, and a decimal prefix length no
   * longer than the address; the network's base address is the parsed
   * address with its host bits cleared.
   */
  function ParseCIDR(s: string): (r: Option<IPNet>)
    ensures r.Some? ==> ValidNet(r.value)
  {
    var i := IndexOf(s, '/');
    if i == |s| then None
    else
      var ip := ParseIP(s[..i]);
      var bits := s[i + 1..];
      if ip == [] || bits == [] || !AllDigits(bits) || DigitsValue(bits) > 8 * |ip| then None
      else
        Some(IPNet(Mask(ip, DigitsValue(bits)), DigitsValue(bits)))
  }

  /** A parsed network's base address has its host bits cleared. */
  lemma ParseCIDRMasked(s: string)
    requires ParseCIDR(s).Some?
    ensures var n := ParseCIDR(s).value; Mask(n.ip, n.prefix) == n.ip
  {
    var n := ParseCIDR(s).value;
    assert forall i :: 0 <= i < |n.ip| ==> Mask(n.ip, n.prefix)[i] == n.ip[i];
  }

  /** The empty string is not an address. */
  lemma ParseIPRejectsEmpty()
    ensures ParseIP("") == []
  {
  }

  /** The empty string is not a network. */
  lemma ParseCIDRRejectsEmpty()
    ensures ParseCIDR("") == None
  {
  }

  lemma OctetRoundTrip(b: byte)
    ensures ParseOctet(Itoa(b as int)) == Some(b)
  {
    NatDigitsShort(b as int);
    NatDigitsValue(b as int);
  }

  /** Parsing the dotted quad of an IPv4 address gives the address back. */
  lemma ParseFormatIP(ip: IP)
    requires |ip| == IPv4Len
    ensures ParseIP(FormatIP(ip)) == ip
  {
    SplitOctets(ip);
    ParseQuadOctets(ip);
  }

  lemma ParseQuadOctets(ip: IP)
    requires |ip| == IPv4Len
    ensures ParseQuad(Octets(ip)) == ip
  {
    var fields := Octets(ip);
    OctetRoundTrip(ip[0]);
    OctetRoundTrip(ip[1]);
    OctetRoundTrip(ip[2]);
    OctetRoundTrip(ip[3]);
    assert ParseOctet(fields[0]) == Some(ip[0]) && ParseOctet(fields[1]) == Some(ip[1]);
    assert ParseOctet(fields[2]) == Some(ip[2]) && ParseOctet(fields[3]) == Some(ip[3]);
    assert ip == [ip[0], ip[1], ip[2], ip[3]];
  }

  lemma SplitOctets(ip: IP)
    requires |ip| == IPv4Len
    ensures Split(FormatIP(ip), '.') == Octets(ip)
  {
    var fields := Octets(ip);
    forall i | 0 <= i < 4 ensures '.' !in fields[i] {
      assert AllDigits(NatDigits(ip[i] as int));
    }
    SplitJoin(fields, '.');
  }

  /** Parsing `a.b.c.d/p` gives the network of `p` leading bits of the address. */
  lemma ParseFormatCIDR(ip: IP, prefix: nat)
    requires |ip| == IPv4Len && prefix <= 8 * IPv4Len
    ensures ParseCIDR(FormatIP(ip) + "/" + Itoa(prefix)) == Some(IPNet(Mask(ip, prefix), prefix))
  {
    var a := FormatIP(ip);
    var s := a + "/" + Itoa(prefix);
    ParseFormatIP(ip);
    assert '/' !in a by {
      JoinNoChar(Octets(ip), '.', '/');
    }
    IndexOfAfter(a, '/', Itoa(prefix));
    assert s[..|a|] == a;
    assert s[|a| + 1..] == Itoa(prefix);
    NatDigitsValue(prefix);
  }

  lemma {:induction false} JoinNoChar(pieces: seq<string>, sep: char, c: char)
    requires c != sep
    requires forall i :: 0 <= i < |pieces| ==> AllDigits(pieces[i])
    requires forall i :: 0 <= i < |pieces| ==> c !in pieces[i]
    ensures c !in Join(pieces, sep)
  {
    if |pieces| > 1 {
      JoinNoChar(pieces[1..], sep, c);
    }
  }

  lemma {:induction false} IndexOfAfter(a: string, c: char, t: string)
    requires c !in a
    ensures IndexOf(a + [c] + t, c) == |a|
  {
    if a != [] {
      IndexOfAfter(a[1..], c, t);
      assert (a + [c] + t)[1..] == a[1..] + [c] + t;
    }
  }
}

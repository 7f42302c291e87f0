/**
 * The allowlist of networks and the check of one address against it
 * (migrate/ip_check.go).
 */
module IpCheck {
  import opened Wrappers
  import opened GoStrings
  import opened Net
  import opened Environment
  import opened Decimal

  /** The environment variable holding the comma-separated allowlist. */
  const SQLMigrateAllowedNetworks: string := "SQL_MIGRATE_ALLOWED_NETWORKS"

  /** `AllowedNetworks`: the networks in configuration order. */
  type AllowedNetworks = seq<IPNet>

  /** Some network of the allowlist contains `ip`. */
  predicate Admits(networks: AllowedNetworks, ip: IP)
  {
    exists i :: 0 <= i < |networks| && Contains(networks[i], ip)
  }

  /** `networks.IsAllowed(ip)`: scans the networks, returning on the first that contains `ip`. */
  method IsAllowed(networks: AllowedNetworks, ip: IP) returns (allowed: bool)
    ensures allowed == Admits(networks, ip)
  {
    for i := 0 to |networks|
      invariant forall j :: 0 <= j < i ==> !Contains(networks[j], ip)
    {
      if Contains(networks[i], ip) {
        return true;
      }
    }
    return false;
  }

  /**
   * The networks `parse` yields for the longest prefix of `segments` in which
   * every segment parses, in order: parsing stops at the first malformed
   * segment and nothing after it is kept.
   */
  function LongestParsedPrefix(segments: seq<string>, parse: string -> Option<IPNet>): (networks: AllowedNetworks)
    ensures |networks| <= |segments|
    ensures forall i :: 0 <= i < |networks| ==> parse(segments[i]) == Some(networks[i])
    ensures |networks| < |segments| ==> parse(segments[|networks|]) == None
  {
    if segments == [] then []
    else
      var first := parse(segments[0]);
      if first.None? then []
      else
        var tail := segments[1..];
        var rest := LongestParsedPrefix(tail, parse);
        assert |rest| < |tail| ==> segments[|rest| + 1] == tail[|rest|];
        assert forall i :: 1 <= i < |rest| + 1 ==> segments[i] == tail[i - 1];
        [first.value] + rest
  }

  /** The allowlist that a value of the environment variable denotes. */
  function AllowlistOf(value: string): AllowedNetworks
  {
    LongestParsedPrefix(Split(value, ','), ParseCIDR)
  }

  /**
   * `GetAllowedNetworks()`: splits the variable on commas and appends each
   * parsed network, breaking out of the loop at the first parse error.
   */
  method GetAllowedNetworks(env: Env) returns (networks: AllowedNetworks)
    ensures networks == AllowlistOf(Getenv(env, SQLMigrateAllowedNetworks))
  {
    var value := Getenv(env, SQLMigrateAllowedNetworks);
    var networkStrings := Split(value, ',');
    ghost var spec := AllowlistOf(value);
    networks := [];
    for i := 0 to |networkStrings|
      invariant i <= |spec| && networks == spec[..i]
    {
      var network := ParseCIDR(networkStrings[i]);
      PrefixStep(networkStrings, ParseCIDR, i);
      if network.None? {
        break;
      }
      networks := networks + [network.value];
    }
  }

  /** What one more segment contributes to the longest parsed prefix. */
  lemma PrefixStep(segments: seq<string>, parse: string -> Option<IPNet>, i: nat)
    requires i < |segments| && i <= |LongestParsedPrefix(segments, parse)|
    ensures var spec := LongestParsedPrefix(segments, parse);
      match parse(segments[i])
      case None => i == |spec|
      case Some(n) => i < |spec| && spec[..i + 1] == spec[..i] + [n]
  {
    var spec := LongestParsedPrefix(segments, parse);
    if i < |spec| {
      assert parse(segments[i]) == Some(spec[i]);
      TakeOneMore(spec, i);
    } else {
      assert parse(segments[i]) == None;
    }
  }

  lemma TakeOneMore<T>(s: seq<T>, i: nat)
    requires i < |s|
    ensures s[..i + 1] == s[..i] + [s[i]]
  {
  }

  /**
   * `getXForwardedFor(r)`: one parsed address per space-separated token of
   * the forwarded-for header value, in order; tokens that do not parse give
   * the nil IP.
   */
  method GetXForwardedFor(addresses: string) returns (ips: seq<IP>)
    ensures |ips| == Count(addresses, ' ') + 1
    ensures forall i :: 0 <= i < |ips| ==> ips[i] == ParseIP(Split(addresses, ' ')[i])
  {
    var tokens := Split(addresses, ' ');
    ips := [];
    for i := 0 to |tokens|
      invariant |ips| == i
      invariant forall j :: 0 <= j < i ==> ips[j] == ParseIP(tokens[j])
    {
      ips := ips + [ParseIP(tokens[i])];
    }
  }

  // ------------------------------------------------------------- properties

  /** An empty allowlist admits no address. */
  lemma EmptyAdmitsNothing(ip: IP)
    ensures !Admits([], ip)
  {
  }

  /** The nil IP (an unparseable address) is admitted by no allowlist built from configuration. */
  lemma NilNeverAdmitted(value: string)
    ensures !Admits(AllowlistOf(value), [])
  {
    var networks := AllowlistOf(value);
    forall i | 0 <= i < |networks| ensures !Contains(networks[i], []) {
      NilInNoNetwork(networks[i]);
    }
  }

  /**
   * Admission depends only on which networks are listed: reordering the
   * allowlist or repeating entries does not change it.
   */
  lemma AdmitsOrderIndependent(a: AllowedNetworks, b: AllowedNetworks, ip: IP)
    requires forall n :: n in a <==> n in b
    ensures Admits(a, ip) == Admits(b, ip)
  {
    if Admits(a, ip) {
      var i :| 0 <= i < |a| && Contains(a[i], ip);
      assert a[i] in b;
    }
    if Admits(b, ip) {
      var i :| 0 <= i < |b| && Contains(b[i], ip);
      assert b[i] in a;
    }
  }

  /** In particular any permutation of the allowlist admits the same addresses. */
  lemma AdmitsPermutation(a: AllowedNetworks, b: AllowedNetworks, ip: IP)
    requires multiset(a) == multiset(b)
    ensures Admits(a, ip) == Admits(b, ip)
  {
    forall n ensures n in a <==> n in b {
      assert n in a <==> n in multiset(a);
      assert n in b <==> n in multiset(b);
    }
    AdmitsOrderIndependent(a, b, ip);
  }

  /** The allowlist has at most one network per comma-separated segment. */
  lemma AllowlistBound(value: string)
    ensures |AllowlistOf(value)| <= Count(value, ',') + 1
  {
  }

  /** An unset or empty variable gives an empty allowlist: `""` is one segment and does not parse. */
  lemma EmptyConfigEmptyAllowlist(env: Env)
    requires Getenv(env, SQLMigrateAllowedNetworks) == ""
    ensures AllowlistOf(Getenv(env, SQLMigrateAllowedNetworks)) == []
  {
    ParseCIDRRejectsEmpty();
  }

  /** The allowlist is the parse of the configured segments up to the first malformed one. */
  lemma AllowlistStopsAtFirstError(value: string, k: nat)
    requires k < |Split(value, ',')|
    requires forall i :: 0 <= i < k ==> ParseCIDR(Split(value, ',')[i]).Some?
    requires ParseCIDR(Split(value, ',')[k]) == None
    ensures |AllowlistOf(value)| == k
  {
  }

  // ------------------------------------------------------- concrete cases

  /** The dotted quad `a.b.c.d` parses to the bytes `a, b, c, d`. */
  lemma ParsesTo(text: string, ip: IP)
    requires |ip| == IPv4Len && text == FormatIP(ip)
    ensures ParseIP(text) == ip
  {
    ParseFormatIP(ip);
  }

  const Loopback8: IPNet := IPNet([127, 0, 0, 0], 8)
  const Net128: IPNet := IPNet([128, 0, 0, 0], 8)

  /** An address of the form `a.0.0.0` is its own `/8` network base. */
  lemma MaskFirstOctet(ip: IP)
    requires |ip| == IPv4Len && ip[1] == 0 && ip[2] == 0 && ip[3] == 0
    ensures Mask(ip, 8) == ip
  {
    var m := Mask(ip, 8);
    assert MaskByte(8, 0) == 0xff && MaskByte(8, 1) == 0 && MaskByte(8, 2) == 0 && MaskByte(8, 3) == 0;
    assert m[0] == ip[0] && m[1] == ip[1] && m[2] == ip[2] && m[3] == ip[3];
  }

  /** The text `a.0.0.0/8` parses to the `/8` network of `a.0.0.0`. */
  lemma ParseSlash8(text: string, ip: IP)
    requires |ip| == IPv4Len && ip[1] == 0 && ip[2] == 0 && ip[3] == 0
    requires text == FormatIP(ip) + "/" + Itoa(8)
    ensures ParseCIDR(text) == Some(IPNet(ip, 8))
  {
    ParseFormatCIDR(ip, 8);
    MaskFirstOctet(ip);
  }

  lemma Slash8Text127(text: string)
    requires text == "127.0.0.0/8"
    ensures text == FormatIP([127, 0, 0, 0]) + "/" + Itoa(8)
  {
    assert NatDigits(12) == "12" && Itoa(127) == "127";
    assert Join(["127", "0", "0", "0"], '.') == "127.0.0.0";
  }

  lemma Slash8Text128(text: string)
    requires text == "128.0.0.0/8"
    ensures text == FormatIP([128, 0, 0, 0]) + "/" + Itoa(8)
  {
    assert NatDigits(12) == "12" && Itoa(128) == "128";
    assert Join(["128", "0", "0", "0"], '.') == "128.0.0.0";
  }

  lemma ParseLoopback8(text: string)
    requires text == "127.0.0.0/8"
    ensures ParseCIDR(text) == Some(Loopback8)
  {
    Slash8Text127(text);
    ParseSlash8(text, [127, 0, 0, 0]);
  }

  lemma ParseNet128(text: string)
    requires text == "128.0.0.0/8"
    ensures ParseCIDR(text) == Some(Net128)
  {
    Slash8Text128(text);
    ParseSlash8(text, [128, 0, 0, 0]);
  }

  /** Two well-formed segments give their two networks, in order. */
  lemma TwoSegments(segments: seq<string>, parse: string -> Option<IPNet>, first: IPNet, second: IPNet)
    requires |segments| == 2
    requires parse(segments[0]) == Some(first) && parse(segments[1]) == Some(second)
    ensures LongestParsedPrefix(segments, parse) == [first, second]
  {
    assert segments[1..][1..] == [];
  }

  lemma SplitTwoNetworks(value: string)
    requires value == "127.0.0.0/8,128.0.0.0/8"
    ensures Split(value, ',') == ["127.0.0.0/8", "128.0.0.0/8"]
  {
    var segments := ["127.0.0.0/8", "128.0.0.0/8"];
    assert Join(segments, ',') == value;
    SplitJoin(segments, ',');
  }

  /** The configuration `127.0.0.0/8,128.0.0.0/8` gives both networks, in order. */
  lemma TwoNetworkConfig(value: string)
    requires value == "127.0.0.0/8,128.0.0.0/8"
    ensures AllowlistOf(value) == [Loopback8, Net128]
  {
    SplitTwoNetworks(value);
    var segments := Split(value, ',');
    ParseLoopback8(segments[0]);
    ParseNet128(segments[1]);
    TwoSegments(segments, ParseCIDR, Loopback8, Net128);
  }

  lemma ParseLoopbackAddress(text: string)
    requires text == "127.0.0.1"
    ensures ParseIP(text) == [127, 0, 0, 1]
  {
    assert NatDigits(12) == "12" && Itoa(127) == "127";
    assert Join(["127", "0", "0", "1"], '.') == "127.0.0.1";
    ParsesTo("127.0.0.1", [127, 0, 0, 1]);
  }

  lemma ParsePublicAddress(text: string)
    requires text == "8.8.8.8"
    ensures ParseIP(text) == [8, 8, 8, 8]
  {
    assert Join(["8", "8", "8", "8"], '.') == "8.8.8.8";
    ParsesTo("8.8.8.8", [8, 8, 8, 8]);
  }

  /** `127.0.0.1` lies in `127.0.0.0/8`. */
  lemma LoopbackContained(ip: IP)
    requires ip == [127, 0, 0, 1]
    ensures Contains(Loopback8, ip)
  {
    assert MaskByte(8, 0) == 0xff && MaskByte(8, 1) == 0 && MaskByte(8, 2) == 0 && MaskByte(8, 3) == 0;
  }

  /** An allowlist holding `127.0.0.0/8` admits `127.0.0.1`. */
  lemma LoopbackAdmitted(networks: AllowedNetworks, ip: IP)
    requires Loopback8 in networks && ip == [127, 0, 0, 1]
    ensures Admits(networks, ip)
  {
    LoopbackContained(ip);
    var i :| 0 <= i < |networks| && networks[i] == Loopback8;
    assert Contains(networks[i], ip);
  }

  lemma PublicDenied(ip: IP)
    requires ip == [8, 8, 8, 8]
    ensures !Admits([Loopback8, Net128], ip)
  {
    assert MaskByte(8, 0) == 0xff;
    assert !Contains(Loopback8, ip) by {
      assert ip[0] & MaskByte(8, 0) != Loopback8.ip[0] & MaskByte(8, 0);
    }
    assert !Contains(Net128, ip) by {
      assert ip[0] & MaskByte(8, 0) != Net128.ip[0] & MaskByte(8, 0);
    }
  }

  /** Against `{127.0.0.0/8, 128.0.0.0/8}`, `127.0.0.1` is allowed and `8.8.8.8` is not. */
  lemma LoopbackAllowedPublicDenied(loopback: string, public: string)
    requires loopback == "127.0.0.1" && public == "8.8.8.8"
    ensures Admits([Loopback8, Net128], ParseIP(loopback))
    ensures !Admits([Loopback8, Net128], ParseIP(public))
  {
    ParseLoopbackAddress(loopback);
    ParsePublicAddress(public);
    LoopbackAdmitted([Loopback8, Net128], ParseIP(loopback));
    PublicDenied(ParseIP(public));
  }
}

// The request handlers of main.go: the access gate in front of
// `execMigrateUp` / `execMigrateDown`, and the choice of connection string
// in `getConnection`.

module Server {
  import opened GoStrings
  import opened Net
  import opened Environment
  import opened IpCheck
  import opened Config
  import opened Connect

  // ------------------------------------------------------------ the gate

  /**
   * The addresses a request is checked by: the space-separated tokens of
   * the forwarded-for value, followed by the remote address up to its
   * first `:`.
   */
  function Candidates(xForwardedFor: string, remoteAddr: string): (addresses: seq<string>)
    ensures |addresses| == Count(xForwardedFor, ' ') + 2
    ensures addresses[..|addresses| - 1] == Split(xForwardedFor, ' ')
    ensures addresses[|addresses| - 1] == remoteAddr[..IndexOf(remoteAddr, ':')]
  {
    SplitFirstPiece(remoteAddr, ':');
    var addresses := Split(xForwardedFor, ' ');
    assert (addresses + [Split(remoteAddr, ':')[0]])[..|addresses|] == addresses;
    addresses + [Split(remoteAddr, ':')[0]]
  }

  /** Some address of the list parses to an address the allowlist admits. */
  predicate AnyAdmitted(networks: AllowedNetworks, addresses: seq<string>) {
    exists i :: 0 <= i < |addresses| && Admits(networks, ParseIP(addresses[i]))
  }

  /** The gate's decision for one request. */
  predicate RequestAllowed(networks: AllowedNetworks, xForwardedFor: string, remoteAddr: string) {
    AnyAdmitted(networks, Candidates(xForwardedFor, remoteAddr))
  }

  /**
   * The access-gate block of the handlers: the candidates are parsed into a
   * list of addresses, which is then scanned until one is allowed.
   */
  method CheckAccess(networks: AllowedNetworks, xForwardedFor: string, remoteAddr: string)
    returns (isAllowed: bool)
    ensures isAllowed == RequestAllowed(networks, xForwardedFor, remoteAddr)
  {
    var addresses := Split(xForwardedFor, ' ');
    var remote := Split(remoteAddr, ':')[0];
    addresses := addresses + [remote];

    var ips: seq<IP> := [];
    for i := 0 to |addresses|
      invariant |ips| == i
      invariant forall k :: 0 <= k < i ==> ips[k] == ParseIP(addresses[k])
    {
      ips := ips + [ParseIP(addresses[i])];
    }

    isAllowed := false;
    for i := 0 to |ips|
      invariant !isAllowed
      invariant forall k :: 0 <= k < i ==> !Admits(networks, ips[k])
    {
      isAllowed := IsAllowed(networks, ips[i]);
      if isAllowed {
        break;
      }
    }
    ParsedCandidates(networks, addresses, ips);
    assert addresses == Candidates(xForwardedFor, remoteAddr);
  }

  /** Scanning the parsed list decides the same as the candidates themselves. */
  lemma ParsedCandidates(networks: AllowedNetworks, addresses: seq<string>, ips: seq<IP>)
    requires |ips| == |addresses|
    requires forall k :: 0 <= k < |ips| ==> ips[k] == ParseIP(addresses[k])
    ensures AnyAdmitted(networks, addresses) <==> exists k :: 0 <= k < |ips| && Admits(networks, ips[k])
  {
    if AnyAdmitted(networks, addresses) {
      var k :| 0 <= k < |addresses| && Admits(networks, ParseIP(addresses[k]));
      assert Admits(networks, ips[k]);
    }
  }

  // -------------------------------------------------------- the handlers

  /** `migrate.Up` and `migrate.Down`. */
  datatype Direction = Up | Down

  /**
   * What a handler does with a request: answer 403 without touching the
   * database, or run the migration in the given direction.
   */
  datatype Response = Forbidden | RunMigration(direction: Direction)

  const StatusForbidden: int := 403
  const StatusOK: int := 200

  /** The status written: 403 on denial, Go's implicit 200 once the body is written. */
  function StatusCode(response: Response): int {
    match response
    case Forbidden => StatusForbidden
    case RunMigration(_) => StatusOK
  }

  /** The allowlist in force: re-read from the environment on every request. */
  function AllowlistIn(env: Env): AllowedNetworks {
    AllowlistOf(Getenv(env, SQLMigrateAllowedNetworks))
  }

  /** The handlers' common rule: migrate only through the gate. */
  function Handle(env: Env, xForwardedFor: string, remoteAddr: string, direction: Direction): (response: Response)
    ensures response == Forbidden <==> !RequestAllowed(AllowlistIn(env), xForwardedFor, remoteAddr)
    ensures response != Forbidden ==> response == RunMigration(direction)
  {
    if RequestAllowed(AllowlistIn(env), xForwardedFor, remoteAddr) then RunMigration(direction) else Forbidden
  }

  /** `execMigrateUp`. */
  method ExecMigrateUp(env: Env, xForwardedFor: string, remoteAddr: string) returns (response: Response)
    ensures response == Handle(env, xForwardedFor, remoteAddr, Up)
  {
    var networks := GetAllowedNetworks(env);
    var isAllowed := CheckAccess(networks, xForwardedFor, remoteAddr);
    if !isAllowed {
      return Forbidden;
    }
    return RunMigration(Up);
  }

  /** `execMigrateDown`. */
  method ExecMigrateDown(env: Env, xForwardedFor: string, remoteAddr: string) returns (response: Response)
    ensures response == Handle(env, xForwardedFor, remoteAddr, Down)
  {
    var networks := GetAllowedNetworks(env);
    var isAllowed := CheckAccess(networks, xForwardedFor, remoteAddr);
    if !isAllowed {
      return Forbidden;
    }
    return RunMigration(Down);
  }

  // --------------------------------------------------- gate properties

  /** Denial is answered with 403 and nothing else; admission runs the migration. */
  lemma ForbiddenIff403(env: Env, xForwardedFor: string, remoteAddr: string, direction: Direction)
    ensures StatusCode(Handle(env, xForwardedFor, remoteAddr, direction)) == StatusForbidden
      <==> !RequestAllowed(AllowlistIn(env), xForwardedFor, remoteAddr)
    ensures Handle(env, xForwardedFor, remoteAddr, direction).RunMigration?
      ==> Handle(env, xForwardedFor, remoteAddr, direction).direction == direction
  {
  }

  /** The up and down handlers let exactly the same requests through. */
  lemma SameGateBothDirections(env: Env, xForwardedFor: string, remoteAddr: string)
    ensures Handle(env, xForwardedFor, remoteAddr, Up).Forbidden?
      == Handle(env, xForwardedFor, remoteAddr, Down).Forbidden?
  {
  }

  /** The decision depends on which addresses are among the candidates, not on their order. */
  lemma {:induction false} CandidateOrderIrrelevant(networks: AllowedNetworks, a: seq<string>, b: seq<string>)
    requires multiset(a) == multiset(b)
    ensures AnyAdmitted(networks, a) == AnyAdmitted(networks, b)
  {
    if AnyAdmitted(networks, a) {
      var i :| 0 <= i < |a| && Admits(networks, ParseIP(a[i]));
      assert a[i] in multiset(b);
      var j :| 0 <= j < |b| && b[j] == a[i];
    }
    if AnyAdmitted(networks, b) {
      var j :| 0 <= j < |b| && Admits(networks, ParseIP(b[j]));
      assert b[j] in multiset(a);
      var i :| 0 <= i < |a| && a[i] == b[j];
    }
  }

  /** With an empty allowlist every request is denied. */
  lemma EmptyAllowlistDeniesAll(xForwardedFor: string, remoteAddr: string)
    ensures !RequestAllowed([], xForwardedFor, remoteAddr)
  {
    var addresses := Candidates(xForwardedFor, remoteAddr);
    forall i | 0 <= i < |addresses| ensures !Admits([], ParseIP(addresses[i])) {
      EmptyAdmitsNothing(ParseIP(addresses[i]));
    }
  }

  /** With the allowlist variable empty or unset, every request is forbidden. */
  lemma EmptyConfigForbidsAll(env: Env, xForwardedFor: string, remoteAddr: string, direction: Direction)
    requires Getenv(env, SQLMigrateAllowedNetworks) == ""
    ensures Handle(env, xForwardedFor, remoteAddr, direction) == Forbidden
  {
    EmptyConfigEmptyAllowlist(env);
    EmptyAllowlistDeniesAll(xForwardedFor, remoteAddr);
  }

  /** An admitted remote host lets the request through, whatever the forwarded-for value. */
  lemma RemoteHostSuffices(networks: AllowedNetworks, xForwardedFor: string, remoteAddr: string)
    requires Admits(networks, ParseIP(Split(remoteAddr, ':')[0]))
    ensures RequestAllowed(networks, xForwardedFor, remoteAddr)
  {
    var addresses := Candidates(xForwardedFor, remoteAddr);
    assert addresses[|addresses| - 1] == Split(remoteAddr, ':')[0];
  }

  /** An admitted forwarded-for token lets the request through, whatever the remote address. */
  lemma ForwardedTokenSuffices(networks: AllowedNetworks, xForwardedFor: string, remoteAddr: string, k: nat)
    requires k < |Split(xForwardedFor, ' ')|
    requires Admits(networks, ParseIP(Split(xForwardedFor, ' ')[k]))
    ensures RequestAllowed(networks, xForwardedFor, remoteAddr)
  {
    var addresses := Candidates(xForwardedFor, remoteAddr);
    assert addresses[k] == addresses[..|addresses| - 1][k];
  }

  /**
   * An empty forwarded-for value and the peer `127.0.0.1:54321` are let
   * through by an allowlist that holds `127.0.0.0/8`.
   */
  lemma LoopbackPeerAllowed(networks: AllowedNetworks, xForwardedFor: string, remoteAddr: string)
    requires Loopback8 in networks
    requires xForwardedFor == "" && remoteAddr == "127.0.0.1:54321"
    ensures RequestAllowed(networks, xForwardedFor, remoteAddr)
  {
    var parts := ["127.0.0.1", "54321"];
    assert Join(parts, ':') == remoteAddr;
    SplitJoin(parts, ':');
    ParseLoopbackAddress(parts[0]);
    LoopbackAdmitted(networks, ParseIP(parts[0]));
    RemoteHostSuffices(networks, xForwardedFor, remoteAddr);
  }

  /**
   * The forwarded-for value `8.8.8.8 127.0.0.1` is let through by an
   * allowlist that holds `127.0.0.0/8`, even though its first token and the
   * peer are not.
   */
  lemma SecondForwardedTokenAllowed(networks: AllowedNetworks, xForwardedFor: string, remoteAddr: string)
    requires Loopback8 in networks
    requires xForwardedFor == "8.8.8.8 127.0.0.1"
    ensures RequestAllowed(networks, xForwardedFor, remoteAddr)
  {
    var tokens := ["8.8.8.8", "127.0.0.1"];
    assert Join(tokens, ' ') == xForwardedFor;
    SplitJoin(tokens, ' ');
    ParseLoopbackAddress(tokens[1]);
    LoopbackAdmitted(networks, ParseIP(tokens[1]));
    ForwardedTokenSuffices(networks, xForwardedFor, remoteAddr, 1);
  }

  // ---------------------------------------------------- getConnection

  /**
   * The connection string `getConnection` opens: the Unix-socket form when
   * the host starts with `/`, the TCP form otherwise. A failed port lookup
   * leaves `-1` and a rejected SSL mode leaves `disable`; both are only
   * logged.
   */
  function ConnectionString(env: Env): (connection: string)
    ensures GetHost(env)[0] == '/' ==>
      connection == BuildConnectionStringForUnixDomainSocket(GetHost(env), GetUser(env), GetPassword(env), GetDBName(env))
    ensures GetHost(env)[0] != '/' ==>
      connection == BuildConnectionString(GetHost(env), GetPort(env).0, GetUser(env), GetPassword(env), GetDBName(env), GetSSLMode(env).0)
  {
    var host := GetHost(env);
    assert host[..1] == "/" <==> host[0] == '/';
    var port := GetPort(env).0;
    var sslMode := GetSSLMode(env).0;
    if host[..1] == "/" then
      BuildConnectionStringForUnixDomainSocket(host, GetUser(env), GetPassword(env), GetDBName(env))
    else
      BuildConnectionString(host, port, GetUser(env), GetPassword(env), GetDBName(env), sslMode)
  }

  /** The two forms never coincide: after the host comes ` user=` in one and ` port=` in the other. */
  lemma {:induction false} FormsDiffer(host: string, port: int, user: string, password: string,
                                       dbname: string, sslmode: string, user': string, password': string, dbname': string)
    ensures BuildConnectionString(host, port, user, password, dbname, sslmode)
      != BuildConnectionStringForUnixDomainSocket(host, user', password', dbname')
  {
    var tcp := BuildConnectionString(host, port, user, password, dbname, sslmode);
    var socket := BuildConnectionStringForUnixDomainSocket(host, user', password', dbname');
    var k := |"host=" + host| + 1;
    assert tcp[k] == 'p';
    assert socket[k] == 'u';
  }

  /** The Unix-socket form is used exactly when the host starts with `/`. */
  lemma SocketIffSlash(env: Env)
    ensures ConnectionString(env)
      == BuildConnectionStringForUnixDomainSocket(GetHost(env), GetUser(env), GetPassword(env), GetDBName(env))
      <==> GetHost(env)[0] == '/'
  {
    var host := GetHost(env);
    assert host[..1] == "/" <==> host[0] == '/';
    if host[0] != '/' {
      FormsDiffer(host, GetPort(env).0, GetUser(env), GetPassword(env), GetDBName(env), GetSSLMode(env).0,
                  GetUser(env), GetPassword(env), GetDBName(env));
    }
  }

  /** The TCP form, with the configured port and SSL mode, is used exactly when the host does not start with `/`. */
  lemma TcpIffNoSlash(env: Env)
    ensures ConnectionString(env)
      == BuildConnectionString(GetHost(env), GetPort(env).0, GetUser(env), GetPassword(env), GetDBName(env), GetSSLMode(env).0)
      <==> GetHost(env)[0] != '/'
  {
    var host := GetHost(env);
    assert host[..1] == "/" <==> host[0] == '/';
    if host[0] == '/' {
      FormsDiffer(host, GetPort(env).0, GetUser(env), GetPassword(env), GetDBName(env), GetSSLMode(env).0,
                  GetUser(env), GetPassword(env), GetDBName(env));
    }
  }
}

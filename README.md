# sql-web-migrate: the access gate, configuration and connection strings

sql-web-migrate is a small Go web service. It runs database migrations up or
down when an HTTP request comes in. A request is let through only when one of
its addresses lies in an allowlist of CIDR networks, and that allowlist is
read from the environment variable `SQL_MIGRATE_ALLOWED_NETWORKS`.

This project models four parts of the service in Dafny and proves that the
models keep the promises their source code makes:

- the access gate, in `migrate/ip_check.go` and the handlers of `main.go`;
- the environment-based configuration, in `migrate/config.go`;
- the PostgreSQL connection strings, in `migrate/connect.go`;
- the choice between a Unix-socket and a TCP connection in `getConnection`
  (`main.go`).

Modules, one per file:

| module | file | models |
|---|---|---|
| `Wrappers` | wrappers.dfy | `Option` |
| `GoStrings` | go_strings.dfy | `strings.Split`, `strings.Join` and `strings.Count` with a one-character separator; `IndexOf`, a helper giving the position of the first occurrence of a character, or the length of the string when there is none |
| `Decimal` | decimal.dfy | `strconv.Itoa`, `strconv.Atoi` |
| `Environment` | environment.dfy | `os.Getenv` over an environment given as a `map<string, string>` |
| `Net` | net.dfy | `net.IP`, `net.IPNet`, `IPNet.Contains`, `net.ParseIP` and `net.ParseCIDR` for IPv4 dotted-quad text |
| `IpCheck` | ip_check.dfy | `migrate/ip_check.go` |
| `Config` | config.dfy | `migrate/config.go` |
| `Connect` | connect.dfy | `migrate/connect.go`, with `fmt.Sprintf` for `%s` and `%d` |
| `Server` | server.dfy | the access gate of `execMigrateUp` / `execMigrateDown` and the host branch of `getConnection` in `main.go` |

Conventions:

- **Addresses and networks.** An address is a byte sequence: 4 bytes for
  IPv4, 16 for IPv6. Go's nil `net.IP` is the empty sequence. A network is
  its base address plus a prefix length.
- **Containment.** `Contains` compares lengths first, so a nil IP or an
  address of the other family is in no network, as in Go. It then compares
  the bytes under the CIDR mask (`Net.Contains`). `Net.ContainsIffPrefixBitsAgree`
  proves that this is the same as "the first `prefix` bits agree".
- **Imperative code stays imperative.** The loops of the source are `method`s
  with loop invariants:
  - `IpCheck.IsAllowed`, with its early `return`;
  - `IpCheck.GetAllowedNetworks`, with its `break` on the first parse error;
  - `IpCheck.GetXForwardedFor`;
  - `Server.CheckAccess`, the handlers' candidate loop and `break`.

  Each method is proved equal to a specification function. The properties
  the source promises are lemmas about those functions.
- **Code without loops becomes functions.** The configuration getters and
  the connection-string builders are functions of the environment map and
  of their arguments.

Three behaviours of the code look unintended; the model keeps them as
written:

- the forwarded-for value is split on a space, not on commas;
- the remote address is cut at its first `:`, not its last;
- the allowlist stops at the first malformed entry, rather than skipping it
  or rejecting the whole configuration.

## Model

| member | source | states |
|---|---|---|
| `IpCheck.IsAllowed` | src/github.com/fufuhu/sql-web-migrate/migrate/ip_check.go:16-23 | the scan returns true exactly when some network of the list contains the address |
| `IpCheck.EmptyAdmitsNothing` | src/github.com/fufuhu/sql-web-migrate/migrate/ip_check.go:17-22 | an empty allowlist admits no address |
| `IpCheck.NilNeverAdmitted` | src/github.com/fufuhu/sql-web-migrate/migrate/ip_check.go:18 | the nil IP (an unparseable address) is admitted by no allowlist built from any configuration |
| `IpCheck.AdmitsOrderIndependent` | src/github.com/fufuhu/sql-web-migrate/migrate/ip_check.go:16-23 | two allowlists with the same networks, in any order and with any repetitions, admit the same addresses |
| `IpCheck.AdmitsPermutation` | src/github.com/fufuhu/sql-web-migrate/migrate/ip_check.go:16-23 | a permutation of the allowlist admits the same addresses |
| `IpCheck.LongestParsedPrefix` | src/github.com/fufuhu/sql-web-migrate/migrate/ip_check.go:49-59 | the result is no longer than the segments; each entry is the parse of the segment at its position; when the result is shorter, the next segment does not parse |
| `IpCheck.GetAllowedNetworks` | src/github.com/fufuhu/sql-web-migrate/migrate/ip_check.go:39-62 | the loop that splits the variable on `,` and appends parsed networks until the first error yields exactly the longest fully parsed prefix |
| `IpCheck.PrefixStep` | src/github.com/fufuhu/sql-web-migrate/migrate/ip_check.go:50-58 | one loop step: a parse error is reached exactly at the end of the prefix; otherwise the network appended is the next entry of the prefix |
| `IpCheck.AllowlistBound` | src/github.com/fufuhu/sql-web-migrate/migrate/ip_check.go:45-57 | the allowlist has at most one entry more than the variable has commas |
| `IpCheck.EmptyConfigEmptyAllowlist` | src/github.com/fufuhu/sql-web-migrate/migrate/ip_check.go:45-57 | an empty or unset variable gives the empty allowlist, because `Split("", ",")` is `[""]` and `""` is no network |
| `IpCheck.AllowlistStopsAtFirstError` | src/github.com/fufuhu/sql-web-migrate/migrate/ip_check.go:49-57 | when segment `k` is the first that does not parse, the allowlist has exactly `k` entries, and nothing after the error is kept |
| `IpCheck.TwoNetworkConfig` | src/github.com/fufuhu/sql-web-migrate/migrate/ip_check_test.go:37-54 | `127.0.0.0/8,128.0.0.0/8` gives the two networks, in that order |
| `IpCheck.ParseLoopback8` | src/github.com/fufuhu/sql-web-migrate/migrate/ip_check_test.go:12 | `127.0.0.0/8` parses to base `127.0.0.0` with prefix 8 |
| `IpCheck.ParseNet128` | src/github.com/fufuhu/sql-web-migrate/migrate/ip_check_test.go:14 | `128.0.0.0/8` parses to base `128.0.0.0` with prefix 8 |
| `IpCheck.LoopbackAdmitted` | src/github.com/fufuhu/sql-web-migrate/migrate/ip_check_test.go:9-21 | any allowlist holding `127.0.0.0/8` admits `127.0.0.1` |
| `IpCheck.PublicDenied` | src/github.com/fufuhu/sql-web-migrate/migrate/ip_check_test.go:23-35 | `{127.0.0.0/8, 128.0.0.0/8}` does not admit `8.8.8.8` |
| `IpCheck.LoopbackAllowedPublicDenied` | src/github.com/fufuhu/sql-web-migrate/migrate/ip_check_test.go:9-35 | parsing the test addresses: `127.0.0.1` is admitted by `{127.0.0.0/8, 128.0.0.0/8}` and `8.8.8.8` is not |
| `IpCheck.GetXForwardedFor` | src/github.com/fufuhu/sql-web-migrate/migrate/ip_check.go:95-99 | one address per space-separated token, `count(' ') + 1` in all, in order; each is the parse of its token |
| `Net.ContainsIffPrefixBitsAgree` | src/github.com/fufuhu/sql-web-migrate/migrate/ip_check.go:18 | `network.Contains(ip)` holds exactly when the address has the network's length and its first `prefix` bits equal the base's |
| `Net.Contains` | src/github.com/fufuhu/sql-web-migrate/migrate/ip_check.go:18 | `IPNet.Contains`: an address is contained only when it has the network's length; a `/0` network contains exactly the addresses of its family |
| `Net.ContainsBase` | src/github.com/fufuhu/sql-web-migrate/migrate/ip_check.go:18 | a network contains its own base address |
| `Net.NilInNoNetwork` | src/github.com/fufuhu/sql-web-migrate/migrate/ip_check.go:18 | the nil IP is in no network |
| `Net.ZeroPrefixContainsFamily` | src/github.com/fufuhu/sql-web-migrate/migrate/ip_check.go:18 | a `/0` network contains every address of its family |
| `Net.ParseCIDR` | src/github.com/fufuhu/sql-web-migrate/migrate/ip_check.go:50 | a parsed network's prefix fits its family |
| `Net.ParseCIDRMasked` | src/github.com/fufuhu/sql-web-migrate/migrate/ip_check.go:50 | a parsed network's base has its host bits cleared |
| `Net.ParseFormatCIDR` | src/github.com/fufuhu/sql-web-migrate/migrate/ip_check.go:50 | `a.b.c.d/p` parses to the `/p` network of `a.b.c.d`, with the host bits cleared |
| `Net.ParseFormatIP` | src/github.com/fufuhu/sql-web-migrate/migrate/ip_check.go:97 | parsing the dotted quad of an IPv4 address gives the address back |
| `Net.ParseIP` | src/github.com/fufuhu/sql-web-migrate/migrate/ip_check.go:97 | a parse is either the nil IP or a 4-byte address |
| `Net.ParseIPRejectsEmpty` | src/github.com/fufuhu/sql-web-migrate/main.go:204-206 | the empty token (an empty forwarded-for value) parses to the nil IP |
| `Net.ParseCIDRRejectsEmpty` | src/github.com/fufuhu/sql-web-migrate/migrate/ip_check.go:50-56 | the empty segment is not a network |
| `GoStrings.Split` | src/github.com/fufuhu/sql-web-migrate/migrate/ip_check.go:47 | there is one piece more than there are separators, and no piece contains the separator |
| `GoStrings.JoinSplit` | src/github.com/fufuhu/sql-web-migrate/migrate/ip_check.go:47 | joining the pieces with the separator gives the original string back |
| `GoStrings.SplitJoin` | src/github.com/fufuhu/sql-web-migrate/migrate/ip_check_test.go:43 | splitting separator-free pieces joined by the separator gives the pieces back |
| `GoStrings.SplitFirstPiece` | src/github.com/fufuhu/sql-web-migrate/main.go:200 | the first piece is the text before the first separator |
| `Decimal.AtoiItoa` | src/github.com/fufuhu/sql-web-migrate/migrate/config.go:54-55 | `Atoi(Itoa(n)) == n` for every integer |
| `Decimal.ItoaInjective` | src/github.com/fufuhu/sql-web-migrate/migrate/connect.go:21 | different integers are written differently |
| `Decimal.AtoiRejects` | src/github.com/fufuhu/sql-web-migrate/migrate/config.go:55-60 | text with a non-digit other than a leading sign is rejected |
| `Config.GetValue` | src/github.com/fufuhu/sql-web-migrate/migrate/config.go:101-109 | a set, non-empty variable gives its value; otherwise the default; the result is empty exactly when the variable is unset or empty and the default is empty |
| `Config.GetHost` | src/github.com/fufuhu/sql-web-migrate/migrate/config.go:46-48 | never empty, since the default `localhost` is not; the variable when set, `localhost` otherwise |
| `Config.GetUser` | src/github.com/fufuhu/sql-web-migrate/migrate/config.go:66-68 | with an empty default, exactly what the environment holds (empty when absent) |
| `Config.GetPassword` | src/github.com/fufuhu/sql-web-migrate/migrate/config.go:72-74 | exactly what the environment holds |
| `Config.GetDBName` | src/github.com/fufuhu/sql-web-migrate/migrate/config.go:78-80 | exactly what the environment holds |
| `Config.GetMigrationSourcePath` | src/github.com/fufuhu/sql-web-migrate/migrate/config.go:112-114 | never empty; the variable when set, `/etc/migrate` otherwise |
| `Config.GetPort` | src/github.com/fufuhu/sql-web-migrate/migrate/config.go:53-62 | no error exactly when the port text is a decimal integer, and then the port is its value; on error, `-1` with `Atoi`'s syntax error for that text |
| `Config.PortDefault` | src/github.com/fufuhu/sql-web-migrate/migrate/config_test.go:56-68 | with the port unset, `(5432, nil)` |
| `Config.PortConfigured` | src/github.com/fufuhu/sql-web-migrate/migrate/config_test.go:38-51 | a port written in decimal is read back as that number with no error |
| `Config.PortNotNumeric` | src/github.com/fufuhu/sql-web-migrate/migrate/config.go:55-60 | a port text with a letter gives `-1` and an error |
| `Config.PortHogehoge` | src/github.com/fufuhu/sql-web-migrate/migrate/config_test.go:71-83 | `hogehoge` gives `-1` and an error |
| `Config.GetSSLMode` | src/github.com/fufuhu/sql-web-migrate/migrate/config.go:90-97 | the mode returned is always one of the four accepted ones; no error exactly when the configured mode is one of them, and then it is returned; otherwise `disable` with the fixed message |
| `Config.SSLModeDefault` | src/github.com/fufuhu/sql-web-migrate/migrate/config_test.go:185-197 | with the mode unset, `("disable", nil)` |
| `Config.SSLModeTrueRejected` | src/github.com/fufuhu/sql-web-migrate/migrate/config.go:93-94 | `true` is not accepted: it gives `disable` and the format error |
| `Connect.BuildConnectionString` | src/github.com/fufuhu/sql-web-migrate/migrate/connect.go:18-24 | the string is `host=`h` port=`dec(p)` user=`u` password=`pw` dbname=`db` sslmode=`s, arguments inserted verbatim |
| `Connect.BuildConnectionStringForUnixDomainSocket` | src/github.com/fufuhu/sql-web-migrate/migrate/connect.go:27-34 | the string is `host=`path` user=`u` password=`pw` dbname=`db`, with no port or sslmode field |
| `Connect.ConnectionStringTemplateText` | src/github.com/fufuhu/sql-web-migrate/migrate/connect.go:7 | the TCP template is written `host=%s port=%d user=%s password=%s dbname=%s sslmode=%s` |
| `Connect.SocketTemplateText` | src/github.com/fufuhu/sql-web-migrate/migrate/connect.go:9 | the socket template is written `host=%s user=%s password=%s dbname=%s` |
| `Connect.TcpTemplateFilled` | src/github.com/fufuhu/sql-web-migrate/migrate/connect.go:21 | `Sprintf` of the TCP template accepts the six arguments and fills them in field order |
| `Connect.SocketTemplateFilled` | src/github.com/fufuhu/sql-web-migrate/migrate/connect.go:30-31 | `Sprintf` of the socket template accepts the four arguments and fills them in field order |
| `Connect.ConnectionStringExample` | src/github.com/fufuhu/sql-web-migrate/migrate/connect_test.go:7-21 | the test's arguments give `host=host port=1234 user=user password=password dbname=dbname sslmode=false` |
| `Connect.FailedPortRendered` | src/github.com/fufuhu/sql-web-migrate/migrate/connect.go:21 | a port of `-1` (a failed lookup) is inserted verbatim as `port=-1` |
| `Connect.HostFieldFirst` | src/github.com/fufuhu/sql-web-migrate/migrate/connect.go:7-9 | both strings begin with `host=` |
| `Server.Candidates` | src/github.com/fufuhu/sql-web-migrate/main.go:199-201 | `count(' ') + 2` candidates: the forwarded-for tokens, then the remote address up to its first `:` |
| `Server.CheckAccess` | src/github.com/fufuhu/sql-web-migrate/main.go:199-214 | after parsing every candidate and scanning with `break`, `isAllowed` holds exactly when some candidate parses to an address the allowlist admits |
| `Server.ExecMigrateUp` | src/github.com/fufuhu/sql-web-migrate/main.go:190-225 | the handler reads the allowlist, runs the gate and answers `Forbidden` or runs the upward migration, as `Handle` says |
| `Server.ExecMigrateDown` | src/github.com/fufuhu/sql-web-migrate/main.go:240-276 | the same gate, followed by the downward migration |
| `Server.Handle` | src/github.com/fufuhu/sql-web-migrate/main.go:216-225 | the handlers' rule: `Forbidden` exactly when no candidate of the request is admitted by the allowlist read from the environment; otherwise the migration in the requested direction |
| `Server.ForbiddenIff403` | src/github.com/fufuhu/sql-web-migrate/main.go:216-222 | the status is 403 exactly when the gate denies; an admitted request runs the migration of its own direction |
| `Server.SameGateBothDirections` | src/github.com/fufuhu/sql-web-migrate/main.go:197-222 | the up and down handlers deny exactly the same requests |
| `Server.CandidateOrderIrrelevant` | src/github.com/fufuhu/sql-web-migrate/main.go:208-214 | any reordering of the candidates gives the same decision; the `break` only shortens the scan |
| `Server.EmptyAllowlistDeniesAll` | src/github.com/fufuhu/sql-web-migrate/main.go:208-216 | with an empty allowlist no request is allowed |
| `Server.EmptyConfigForbidsAll` | src/github.com/fufuhu/sql-web-migrate/main.go:197-222 | with the allowlist variable empty or unset, every request is answered `Forbidden` |
| `Server.RemoteHostSuffices` | src/github.com/fufuhu/sql-web-migrate/main.go:200-214 | an admitted remote host lets the request through, whatever the forwarded-for value |
| `Server.ForwardedTokenSuffices` | src/github.com/fufuhu/sql-web-migrate/main.go:199-214 | an admitted forwarded-for token lets the request through, whatever the remote address |
| `Server.LoopbackPeerAllowed` | src/github.com/fufuhu/sql-web-migrate/main.go:199-214 | an empty forwarded-for value with peer `127.0.0.1:54321` passes an allowlist holding `127.0.0.0/8` |
| `Server.SecondForwardedTokenAllowed` | src/github.com/fufuhu/sql-web-migrate/main.go:199-214 | forwarded-for `8.8.8.8 127.0.0.1` passes an allowlist holding `127.0.0.0/8`, whatever the peer |
| `Server.FormsDiffer` | src/github.com/fufuhu/sql-web-migrate/main.go:67-81 | a TCP connection string never equals a socket connection string for the same host |
| `Server.ConnectionString` | src/github.com/fufuhu/sql-web-migrate/main.go:47-81 | `getConnection`'s string: the socket form when the configured host begins with `/`, otherwise the TCP form with the configured port and SSL mode, or their fallbacks `-1` and `disable` |
| `Server.SocketIffSlash` | src/github.com/fufuhu/sql-web-migrate/main.go:67-72 | the socket form is used exactly when the host begins with `/`; `GetHost` is never empty, so `host[:1]` is defined |
| `Server.TcpIffNoSlash` | src/github.com/fufuhu/sql-web-migrate/main.go:73-81 | the TCP form, with the configured port and SSL mode, is used exactly when the host does not begin with `/` |

## Left out

- HTTP serving is not modelled: routing, `ListenAndServe`, request and response writers, the JSON body. A handler's outcome is a `Response` value (`Forbidden`, or the migration to run) and a status code.
- Migration execution and database I/O are not modelled (`sql.Open`, `migrate.ExecMax`, the `gorp_migrations` query). They are foreign library calls. `Server.ConnectionString` stops at the string handed to `sql.Open`.
- zap logging and `fmt.Println` are not modelled; they do not affect any result.
- The process environment is a `map<string, string>` parameter. An absent key reads as `""`, as `os.Getenv` does. Each handler call re-reads the allowlist from the map it is given, as `AllowedNetworks()` does on every request.
- The `init` singletons `NetworkConfig` and `ConnectionConfig` are not modelled (migrate/ip_check.go:102-106, migrate/config.go:116-138). They only hold the getter functions, which are modelled directly. `getConnection` is modelled over the environment rather than over a `DBConnectionConfig` value.
- The unexported `getRemoteAddr` of migrate/ip_check.go:71-83 is unused (main.go has its own) and is not modelled. Neither are main.go's `getXForwardedFor` and `getRemoteAddr` (main.go:165-188): they only read the request, so the header value and `RemoteAddr` are parameters.
- `Net.ParseIP` parses IPv4 dotted-quad text only. IPv6 text, which Go's `net.ParseIP` accepts, yields the nil IP here.
- `Net.ParseCIDR` parses IPv4 CIDR text only, `a.b.c.d/p` with `p <= 32`. Octets take one to three digits with no leading zero (Go 1.17 behaviour). As a result an IPv6 entry ends the model's allowlist in `IpCheck.GetAllowedNetworks`, while Go parses it and reads on. For example, `::1/128,10.0.0.0/8` gives the empty allowlist here, so `10.1.2.3` is denied; Go gives two networks and admits it.
- `Net.ParseIP` returns the 4-byte form of an IPv4 address. Go's `net.ParseIP` returns the 16-byte IPv4-mapped form for dotted-quad text, while a network from `net.ParseCIDR` holds 4 bytes; `IPNet.Contains` reduces the address with `To4` before comparing. The model keeps the 4-byte form that `Contains` compares after `To4`, so the decision is the same, and `Net.Contains` compares lengths directly.
- `Decimal.AtoiRejects`: integers are unbounded, so `strconv.Atoi`'s range error for values outside 64 bits is not modelled. `Config.GetPort` only reports the syntax error.
- `Connect.Sprintf`: a template is given already split into literal text and `%s`/`%d` verbs. It requires arguments of matching kinds. The `%!` error forms that Go prints for mismatched arguments are not modelled; the builders always pass matching arguments.
- `Config.GetHost` (main.go:67): a Go string is bytes and `host[:1]` takes the first byte. Here a string is a sequence of characters, and the first character is compared with `/`.
- Two tests in migrate/config_test.go are not used as properties. `TestGetSSLMode` (lines 168-181) expects `true` to be accepted, which migrate/config.go:93 rejects (`Config.SSLModeTrueRejected` states the code's behaviour). `TestGetDBNameDefaultValue` (lines 155-164) calls `GetPassword` instead of `GetDBName`.
- The handlers split the forwarded-for value on spaces, although proxies chain addresses with `, `. A token such as `10.0.0.1,` then parses to the nil IP and never matches. The model keeps the code's behaviour.
- The handlers cut the remote address at its first `:`, which breaks bracketed IPv6 peers such as `[::1]:80`. IPv6 text is not parsed here anyway.

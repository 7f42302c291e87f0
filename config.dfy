// Configuration lookup and validation (migrate/config.go): every setting is
// read from the process environment, falling back to a fixed default.

module Config {
  import opened Wrappers
  import opened Decimal
  import opened Environment

  // Names of the environment variables.
  const DBHost: string := "SQL_MIGRATE_HOST"
  const DBPort: string := "SQL_MIGRATE_PORT"
  const DBUser: string := "SQL_MIGRATE_USER"
  const DBPassword: string := "SQL_MIGRATE_PASSWORD"
  const DBName: string := "SQL_MIGRATE_DBNAME"
  const DBSSLMode: string := "SQL_MIGRATE_SSL_MODE"
  const DBMigrationSourcePath: string := "SQL_MIGRATE_MIGRATION_SOURCE_PATH"

  // Defaults used when a variable is unset or empty.
  const DefaultDBHost: string := "localhost"
  const DefaultDBPort: int := 5432
  const DefaultDBUser: string := ""
  const DefaultDBPassword: string := ""
  const DefaultDBName: string := ""
  const DefaultDBSSLMode: string := "disable"
  const DefaultDBMigrationSourcePath: string := "/etc/migrate"

  const SSLModeSettingFormatErrorMessage: string :=
    "SSLMode should be require, verify-full, verify-ca, or disable"

  /** The SSL modes the service accepts. */
  const SSLModes: set<string> := {"require", "verify-full", "verify-ca", "disable"}

  /**
   * The errors a getter reports: `strconv.Atoi`'s syntax error, which
   * carries the rejected text, and an error built from a fixed message.
   */
  datatype Error = NumSyntaxError(input: string) | MessageError(message: string)

  /** A variable is set when it is present with a non-empty value. */
  predicate IsSet(env: Env, key: string) {
    key in env && env[key] != ""
  }

  /** `getValue`: the variable's value when it is set, the default otherwise. */
  function GetValue(env: Env, envKey: string, defaultValue: string): (value: string)
    ensures IsSet(env, envKey) ==> value == env[envKey]
    ensures !IsSet(env, envKey) ==> value == defaultValue
    ensures value == "" <==> !IsSet(env, envKey) && defaultValue == ""
  {
    var value := Getenv(env, envKey);
    if value == "" then defaultValue else value
  }

  /** `GetHost`: never empty, because the default host is not. */
  function GetHost(env: Env): (host: string)
    ensures host != ""
    ensures IsSet(env, DBHost) ==> host == env[DBHost]
    ensures !IsSet(env, DBHost) ==> host == DefaultDBHost
  {
    GetValue(env, DBHost, DefaultDBHost)
  }

  // With an empty default, a getter returns exactly what the environment
  // holds: the value when present, the empty string when absent.

  function GetUser(env: Env): (user: string)
    ensures user == Getenv(env, DBUser)
  {
    GetValue(env, DBUser, DefaultDBUser)
  }

  function GetPassword(env: Env): (password: string)
    ensures password == Getenv(env, DBPassword)
  {
    GetValue(env, DBPassword, DefaultDBPassword)
  }

  function GetDBName(env: Env): (name: string)
    ensures name == Getenv(env, DBName)
  {
    GetValue(env, DBName, DefaultDBName)
  }

  function GetMigrationSourcePath(env: Env): (path: string)
    ensures path != ""
    ensures IsSet(env, DBMigrationSourcePath) ==> path == env[DBMigrationSourcePath]
    ensures !IsSet(env, DBMigrationSourcePath) ==> path == DefaultDBMigrationSourcePath
  {
    GetValue(env, DBMigrationSourcePath, DefaultDBMigrationSourcePath)
  }

  /** The text `GetPort` parses: the configured port, or the default written in decimal. */
  function PortString(env: Env): string {
    GetValue(env, DBPort, Itoa(DefaultDBPort))
  }

  /**
   * `GetPort`: the decimal value of the port text with no error, or `-1`
   * with `Atoi`'s syntax error when the text is not a decimal integer.
   */
  function GetPort(env: Env): (result: (int, Option<Error>))
    ensures result.1 == None <==> Atoi(PortString(env)).Some?
    ensures result.1 == None ==> Atoi(PortString(env)) == Some(result.0)
    ensures result.1 != None ==> result == (-1, Some(NumSyntaxError(PortString(env))))
  {
    var portString := PortString(env);
    match Atoi(portString)
    case None => (-1, Some(NumSyntaxError(portString)))
    case Some(port) => (port, None)
  }

  /** `GetSSLMode`: the configured mode if it is one of the four accepted ones. */
  function GetSSLMode(env: Env): (result: (string, Option<Error>))
    ensures result.0 in SSLModes
    ensures result.1 == None <==> GetValue(env, DBSSLMode, DefaultDBSSLMode) in SSLModes
    ensures result.1 == None ==> result.0 == GetValue(env, DBSSLMode, DefaultDBSSLMode)
    ensures result.1 != None ==> result == (DefaultDBSSLMode, Some(MessageError(SSLModeSettingFormatErrorMessage)))
  {
    var mode := GetValue(env, DBSSLMode, DefaultDBSSLMode);
    if mode != "require" && mode != "verify-full" && mode != "verify-ca" && mode != "disable" then
      (DefaultDBSSLMode, Some(MessageError(SSLModeSettingFormatErrorMessage)))
    else
      (mode, None)
  }

  // ------------------------------------------------------------ properties

  /** With the port unset, `GetPort` gives the default port and no error. */
  lemma PortDefault(env: Env)
    requires !IsSet(env, DBPort)
    ensures GetPort(env) == (DefaultDBPort, None)
  {
    AtoiItoa(DefaultDBPort);
  }

  /** A port written in decimal is read back as that number. */
  lemma PortConfigured(env: Env, n: int)
    requires DBPort in env && env[DBPort] == Itoa(n)
    ensures GetPort(env) == (n, None)
  {
    AtoiItoa(n);
    assert Itoa(n) != "" by {
      if n < 0 {
        assert Itoa(n)[0] == '-';
      }
    }
  }

  /** A port containing a letter gives `-1` and an error. */
  lemma PortNotNumeric(env: Env, i: nat)
    requires DBPort in env && i < |env[DBPort]| && !IsDigit(env[DBPort][i])
    requires i > 0 || (env[DBPort][0] != '+' && env[DBPort][0] != '-')
    ensures GetPort(env).0 == -1 && GetPort(env).1 != None
  {
    AtoiRejects(env[DBPort], i);
  }

  /** The port value `hogehoge` is rejected. */
  lemma PortHogehoge(env: Env, value: string)
    requires value == "hogehoge" && DBPort in env && env[DBPort] == value
    ensures GetPort(env) == (-1, Some(NumSyntaxError("hogehoge")))
  {
    PortNotNumeric(env, 0);
  }

  /** With the SSL mode unset, `GetSSLMode` gives `disable` and no error. */
  lemma SSLModeDefault(env: Env)
    requires !IsSet(env, DBSSLMode)
    ensures GetSSLMode(env) == ("disable", None)
  {
  }

  /** Only the four accepted modes pass through; `true` is not one of them. */
  lemma SSLModeTrueRejected(env: Env, value: string)
    requires value == "true" && DBSSLMode in env && env[DBSSLMode] == value
    ensures GetSSLMode(env) == ("disable", Some(MessageError(SSLModeSettingFormatErrorMessage)))
  {
    assert value !in SSLModes;
  }
}

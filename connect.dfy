// Connection-string assembly (migrate/connect.go): each builder fills a fixed
// `key=value` template through `fmt.Sprintf`.

module Connect {
  import opened Decimal

  /**
   * A format string split at its verbs: literal text, `%s` or `%d`. The
   * templates below use no other verb and no `%%`.
   */
  datatype Piece = Text(text: string) | StringVerb | IntVerb

  type Template = seq<Piece>

  /** An argument of `Sprintf`, as far as these templates use them. */
  datatype Arg = Str(s: string) | Int(n: int)

  function Last<T>(s: seq<T>): T
    requires s != []
  {
    s[|s| - 1]
  }

  function Init<T>(s: seq<T>): seq<T>
    requires s != []
  {
    s[..|s| - 1]
  }

  /** The format string a piece is written as. */
  function PieceText(p: Piece): string {
    match p
    case Text(t) => t
    case StringVerb => "%s"
    case IntVerb => "%d"
  }

  /** The format string a template is written as. */
  function FormatString(template: Template): string {
    if template == [] then "" else FormatString(Init(template)) + PieceText(Last(template))
  }

  /**
   * The arguments fit the template: one argument per verb, a string for
   * every `%s` and an integer for every `%d`.
   */
  predicate Fits(template: Template, args: seq<Arg>) {
    if template == [] then args == []
    else match Last(template)
      case Text(_) => Fits(Init(template), args)
      case StringVerb => args != [] && Last(args).Str? && Fits(Init(template), Init(args))
      case IntVerb => args != [] && Last(args).Int? && Fits(Init(template), Init(args))
  }

  /**
   * `fmt.Sprintf` on fitting arguments: literal text is copied, `%s`
   * inserts its string verbatim and `%d` inserts its integer in decimal.
   */
  function Sprintf(template: Template, args: seq<Arg>): string
    requires Fits(template, args)
  {
    if template == [] then ""
    else match Last(template)
      case Text(t) => Sprintf(Init(template), args) + t
      case StringVerb => Sprintf(Init(template), Init(args)) + Last(args).s
      case IntVerb => Sprintf(Init(template), Init(args)) + Itoa(Last(args).n)
  }

  // One piece more at the end of a template.

  lemma FormatStep(init: Template, p: Piece)
    ensures FormatString(init + [p]) == FormatString(init) + PieceText(p)
  {
    assert Init(init + [p]) == init;
  }

  lemma SprintfText(init: Template, text: string, args: seq<Arg>)
    ensures Fits(init + [Text(text)], args) == Fits(init, args)
    ensures Fits(init, args) ==> Sprintf(init + [Text(text)], args) == Sprintf(init, args) + text
  {
    assert Init(init + [Text(text)]) == init;
  }

  lemma SprintfString(init: Template, args: seq<Arg>, s: string)
    ensures Fits(init + [StringVerb], args + [Str(s)]) == Fits(init, args)
    ensures Fits(init, args) ==> Sprintf(init + [StringVerb], args + [Str(s)]) == Sprintf(init, args) + s
  {
    assert Init(init + [StringVerb]) == init;
    assert Init(args + [Str(s)]) == args;
  }

  lemma SprintfInt(init: Template, args: seq<Arg>, n: int)
    ensures Fits(init + [IntVerb], args + [Int(n)]) == Fits(init, args)
    ensures Fits(init, args) ==> Sprintf(init + [IntVerb], args + [Int(n)]) == Sprintf(init, args) + Itoa(n)
  {
    assert Init(init + [IntVerb]) == init;
    assert Init(args + [Int(n)]) == args;
  }

  /** A `key%s` field appends the key and the string. */
  lemma StringField(init: Template, args: seq<Arg>, key: string, s: string)
    requires Fits(init, args)
    ensures Fits(init + [Text(key)] + [StringVerb], args + [Str(s)])
    ensures Sprintf(init + [Text(key)] + [StringVerb], args + [Str(s)]) == Sprintf(init, args) + key + s
  {
    SprintfText(init, key, args);
    SprintfString(init + [Text(key)], args, s);
  }

  /** A `key%d` field appends the key and the integer in decimal. */
  lemma IntField(init: Template, args: seq<Arg>, key: string, n: int)
    requires Fits(init, args)
    ensures Fits(init + [Text(key)] + [IntVerb], args + [Int(n)])
    ensures Sprintf(init + [Text(key)] + [IntVerb], args + [Int(n)]) == Sprintf(init, args) + key + Itoa(n)
  {
    SprintfText(init, key, args);
    SprintfInt(init + [Text(key)], args, n);
  }

  /** The first field of a template. */
  lemma FirstField(key: string, s: string)
    ensures Fits([Text(key)] + [StringVerb], [Str(s)])
    ensures Sprintf([Text(key)] + [StringVerb], [Str(s)]) == key + s
  {
    StringField([], [], key, s);
    assert [] + [Text(key)] == [Text(key)];
    assert [] + [Str(s)] == [Str(s)];
    assert "" + key == key;
  }

  // ------------------------------------------------------------ templates

  /** `ConnectionStringTemplate`, split at its verbs. */
  const ConnectionStringTemplate: Template :=
    [Text("host="), StringVerb, Text(" port="), IntVerb, Text(" user="), StringVerb,
     Text(" password="), StringVerb, Text(" dbname="), StringVerb, Text(" sslmode="), StringVerb]

  /** `ConnectionStringForUnixDomainSocketTemplate`, split at its verbs. */
  const ConnectionStringForUnixDomainSocketTemplate: Template :=
    [Text("host="), StringVerb, Text(" user="), StringVerb,
     Text(" password="), StringVerb, Text(" dbname="), StringVerb]

  const DialectPostgres: string := "postgres"

  /** The TCP template is written `host=%s port=%d user=%s password=%s dbname=%s sslmode=%s`. */
  lemma ConnectionStringTemplateText()
    ensures FormatString(ConnectionStringTemplate) == "host=%s port=%d user=%s password=%s dbname=%s sslmode=%s"
  {
    ConnectionStringTemplatePieces();
    TcpFormatText("host=" + "%s" + " port=" + "%d" + " user=" + "%s" + " password=" + "%s" + " dbname=" + "%s" + " sslmode=" + "%s");
  }

  lemma ConnectionStringTemplatePieces()
    ensures FormatString(ConnectionStringTemplate) == "host=" + "%s" + " port=" + "%d" + " user=" + "%s" + " password=" + "%s" + " dbname=" + "%s" + " sslmode=" + "%s"
  {
    assert ConnectionStringTemplate == [Text("host=")] + [StringVerb] + [Text(" port=")] + [IntVerb] + [Text(" user=")] + [StringVerb] + [Text(" password=")] + [StringVerb] + [Text(" dbname=")] + [StringVerb] + [Text(" sslmode=")] + [StringVerb];
    FormatStep([], Text("host="));
    assert [] + [Text("host=")] == [Text("host=")];
    assert "" + "host=" == "host=";
    FormatStep([Text("host=")], StringVerb);
    FormatStep([Text("host=")] + [StringVerb], Text(" port="));
    FormatStep([Text("host=")] + [StringVerb] + [Text(" port=")], IntVerb);
    FormatStep([Text("host=")] + [StringVerb] + [Text(" port=")] + [IntVerb], Text(" user="));
    FormatStep([Text("host=")] + [StringVerb] + [Text(" port=")] + [IntVerb] + [Text(" user=")], StringVerb);
    FormatStep([Text("host=")] + [StringVerb] + [Text(" port=")] + [IntVerb] + [Text(" user=")] + [StringVerb], Text(" password="));
    FormatStep([Text("host=")] + [StringVerb] + [Text(" port=")] + [IntVerb] + [Text(" user=")] + [StringVerb] + [Text(" password=")], StringVerb);
    FormatStep([Text("host=")] + [StringVerb] + [Text(" port=")] + [IntVerb] + [Text(" user=")] + [StringVerb] + [Text(" password=")] + [StringVerb], Text(" dbname="));
    FormatStep([Text("host=")] + [StringVerb] + [Text(" port=")] + [IntVerb] + [Text(" user=")] + [StringVerb] + [Text(" password=")] + [StringVerb] + [Text(" dbname=")], StringVerb);
    FormatStep([Text("host=")] + [StringVerb] + [Text(" port=")] + [IntVerb] + [Text(" user=")] + [StringVerb] + [Text(" password=")] + [StringVerb] + [Text(" dbname=")] + [StringVerb], Text(" sslmode="));
    FormatStep([Text("host=")] + [StringVerb] + [Text(" port=")] + [IntVerb] + [Text(" user=")] + [StringVerb] + [Text(" password=")] + [StringVerb] + [Text(" dbname=")] + [StringVerb] + [Text(" sslmode=")], StringVerb);
  }

  // Solver steps: the concatenation of the TCP template's pieces is folded into one literal
  // a piece at a time, which the verifier does not do on its own.
  lemma TcpFormatText(text: string)
    requires text == "host=" + "%s" + " port=" + "%d" + " user=" + "%s" + " password=" + "%s" + " dbname=" + "%s" + " sslmode=" + "%s"
    ensures text == "host=%s port=%d user=%s password=%s dbname=%s sslmode=%s"
  {
    assert "host=" + "%s" == "host=%s";
    assert "host=%s" + " port=" == "host=%s port=";
    assert "host=%s port=" + "%d" == "host=%s port=%d";
    assert "host=%s port=%d" + " user=" == "host=%s port=%d user=";
    assert "host=%s port=%d user=" + "%s" == "host=%s port=%d user=%s";
    assert "host=%s port=%d user=%s" + " password=" == "host=%s port=%d user=%s password=";
    assert "host=%s port=%d user=%s password=" + "%s" == "host=%s port=%d user=%s password=%s";
    assert "host=%s port=%d user=%s password=%s" + " dbname=" == "host=%s port=%d user=%s password=%s dbname=";
    assert "host=%s port=%d user=%s password=%s dbname=" + "%s" == "host=%s port=%d user=%s password=%s dbname=%s";
    assert "host=%s port=%d user=%s password=%s dbname=%s" + " sslmode=" == "host=%s port=%d user=%s password=%s dbname=%s sslmode=";
    assert "host=%s port=%d user=%s password=%s dbname=%s sslmode=" + "%s" == "host=%s port=%d user=%s password=%s dbname=%s sslmode=%s";
  }

  /** The Unix-socket template is written `host=%s user=%s password=%s dbname=%s`. */
  lemma SocketTemplateText()
    ensures FormatString(ConnectionStringForUnixDomainSocketTemplate) == "host=%s user=%s password=%s dbname=%s"
  {
    SocketTemplatePieces();
    SocketFormatText("host=" + "%s" + " user=" + "%s" + " password=" + "%s" + " dbname=" + "%s");
  }

  lemma SocketTemplatePieces()
    ensures FormatString(ConnectionStringForUnixDomainSocketTemplate) == "host=" + "%s" + " user=" + "%s" + " password=" + "%s" + " dbname=" + "%s"
  {
    assert ConnectionStringForUnixDomainSocketTemplate == [Text("host=")] + [StringVerb] + [Text(" user=")] + [StringVerb] + [Text(" password=")] + [StringVerb] + [Text(" dbname=")] + [StringVerb];
    FormatStep([], Text("host="));
    assert [] + [Text("host=")] == [Text("host=")];
    assert "" + "host=" == "host=";
    FormatStep([Text("host=")], StringVerb);
    FormatStep([Text("host=")] + [StringVerb], Text(" user="));
    FormatStep([Text("host=")] + [StringVerb] + [Text(" user=")], StringVerb);
    FormatStep([Text("host=")] + [StringVerb] + [Text(" user=")] + [StringVerb], Text(" password="));
    FormatStep([Text("host=")] + [StringVerb] + [Text(" user=")] + [StringVerb] + [Text(" password=")], StringVerb);
    FormatStep([Text("host=")] + [StringVerb] + [Text(" user=")] + [StringVerb] + [Text(" password=")] + [StringVerb], Text(" dbname="));
    FormatStep([Text("host=")] + [StringVerb] + [Text(" user=")] + [StringVerb] + [Text(" password=")] + [StringVerb] + [Text(" dbname=")], StringVerb);
  }

  // Solver steps: the concatenation of the socket template's pieces is folded into one literal
  // a piece at a time, which the verifier does not do on its own.
  lemma SocketFormatText(text: string)
    requires text == "host=" + "%s" + " user=" + "%s" + " password=" + "%s" + " dbname=" + "%s"
    ensures text == "host=%s user=%s password=%s dbname=%s"
  {
    assert "host=" + "%s" == "host=%s";
    assert "host=%s" + " user=" == "host=%s user=";
    assert "host=%s user=" + "%s" == "host=%s user=%s";
    assert "host=%s user=%s" + " password=" == "host=%s user=%s password=";
    assert "host=%s user=%s password=" + "%s" == "host=%s user=%s password=%s";
    assert "host=%s user=%s password=%s" + " dbname=" == "host=%s user=%s password=%s dbname=";
    assert "host=%s user=%s password=%s dbname=" + "%s" == "host=%s user=%s password=%s dbname=%s";
  }

  /** Filling the TCP template's shape with any keys. */
  lemma TcpFields(k1: string, k2: string, k3: string, k4: string, k5: string, k6: string,
                  host: string, port: int, user: string, password: string, dbname: string, sslmode: string)
    ensures var template := [Text(k1)] + [StringVerb] + [Text(k2)] + [IntVerb] + [Text(k3)] + [StringVerb]
      + [Text(k4)] + [StringVerb] + [Text(k5)] + [StringVerb] + [Text(k6)] + [StringVerb];
      var args := [Str(host)] + [Int(port)] + [Str(user)] + [Str(password)] + [Str(dbname)] + [Str(sslmode)];
      Fits(template, args) &&
      Sprintf(template, args) == k1 + host + k2 + Itoa(port) + k3 + user
        + k4 + password + k5 + dbname + k6 + sslmode
  {
    FirstField(k1, host);
    var t1 := [Text(k1)] + [StringVerb];
    var a1 := [Str(host)];
    IntField(t1, a1, k2, port);
    var t2 := t1 + [Text(k2)] + [IntVerb];
    var a2 := a1 + [Int(port)];
    StringField(t2, a2, k3, user);
    var t3 := t2 + [Text(k3)] + [StringVerb];
    var a3 := a2 + [Str(user)];
    StringField(t3, a3, k4, password);
    var t4 := t3 + [Text(k4)] + [StringVerb];
    var a4 := a3 + [Str(password)];
    StringField(t4, a4, k5, dbname);
    var t5 := t4 + [Text(k5)] + [StringVerb];
    var a5 := a4 + [Str(dbname)];
    StringField(t5, a5, k6, sslmode);
  }

  /** Filling the Unix-socket template's shape with any keys. */
  lemma SocketFields(k1: string, k2: string, k3: string, k4: string,
                     path: string, user: string, password: string, dbname: string)
    ensures var template := [Text(k1)] + [StringVerb] + [Text(k2)] + [StringVerb]
      + [Text(k3)] + [StringVerb] + [Text(k4)] + [StringVerb];
      var args := [Str(path)] + [Str(user)] + [Str(password)] + [Str(dbname)];
      Fits(template, args) &&
      Sprintf(template, args) == k1 + path + k2 + user + k3 + password + k4 + dbname
  {
    FirstField(k1, path);
    var t1 := [Text(k1)] + [StringVerb];
    var a1 := [Str(path)];
    StringField(t1, a1, k2, user);
    var t2 := t1 + [Text(k2)] + [StringVerb];
    var a2 := a1 + [Str(user)];
    StringField(t2, a2, k3, password);
    var t3 := t2 + [Text(k3)] + [StringVerb];
    var a3 := a2 + [Str(password)];
    StringField(t3, a3, k4, dbname);
  }

  lemma TcpTemplateFilled(host: string, port: int, user: string, password: string, dbname: string, sslmode: string)
    ensures var args := [Str(host), Int(port), Str(user), Str(password), Str(dbname), Str(sslmode)];
      Fits(ConnectionStringTemplate, args) &&
      Sprintf(ConnectionStringTemplate, args) == "host=" + host + " port=" + Itoa(port) + " user=" + user
        + " password=" + password + " dbname=" + dbname + " sslmode=" + sslmode
  {
    TcpFields("host=", " port=", " user=", " password=", " dbname=", " sslmode=",
              host, port, user, password, dbname, sslmode);
    assert ConnectionStringTemplate == [Text("host=")] + [StringVerb] + [Text(" port=")] + [IntVerb] + [Text(" user=")] + [StringVerb] + [Text(" password=")] + [StringVerb] + [Text(" dbname=")] + [StringVerb] + [Text(" sslmode=")] + [StringVerb];
    assert [Str(host), Int(port), Str(user), Str(password), Str(dbname), Str(sslmode)]
      == [Str(host)] + [Int(port)] + [Str(user)] + [Str(password)] + [Str(dbname)] + [Str(sslmode)];
  }

  lemma SocketTemplateFilled(path: string, user: string, password: string, dbname: string)
    ensures var args := [Str(path), Str(user), Str(password), Str(dbname)];
      Fits(ConnectionStringForUnixDomainSocketTemplate, args) &&
      Sprintf(ConnectionStringForUnixDomainSocketTemplate, args)
        == "host=" + path + " user=" + user + " password=" + password + " dbname=" + dbname
  {
    SocketFields("host=", " user=", " password=", " dbname=", path, user, password, dbname);
    assert ConnectionStringForUnixDomainSocketTemplate == [Text("host=")] + [StringVerb] + [Text(" user=")] + [StringVerb] + [Text(" password=")] + [StringVerb] + [Text(" dbname=")] + [StringVerb];
    assert [Str(path), Str(user), Str(password), Str(dbname)]
      == [Str(path)] + [Str(user)] + [Str(password)] + [Str(dbname)];
  }

  // ------------------------------------------------------------- builders

  /** `BuildConnectionString`: the TCP connection string, fields in template order. */
  function BuildConnectionString(host: string, port: int, user: string,
                                 password: string, dbname: string, sslmode: string): (connection: string)
    ensures connection == "host=" + host + " port=" + Itoa(port) + " user=" + user
      + " password=" + password + " dbname=" + dbname + " sslmode=" + sslmode
  {
    TcpTemplateFilled(host, port, user, password, dbname, sslmode);
    Sprintf(ConnectionStringTemplate, [Str(host), Int(port), Str(user), Str(password), Str(dbname), Str(sslmode)])
  }

  /** `BuildConnectionStringForUnixDomainSocket`: no port and no sslmode field. */
  function BuildConnectionStringForUnixDomainSocket(socketDirectoryPath: string, user: string,
                                                    password: string, dbname: string): (connection: string)
    ensures connection == "host=" + socketDirectoryPath + " user=" + user
      + " password=" + password + " dbname=" + dbname
  {
    SocketTemplateFilled(socketDirectoryPath, user, password, dbname);
    Sprintf(ConnectionStringForUnixDomainSocketTemplate, [Str(socketDirectoryPath), Str(user), Str(password), Str(dbname)])
  }

  // ------------------------------------------------------------ properties

  /** The connection string for host `host`, port 1234 and sslmode `false`. */
  lemma ConnectionStringExample(host: string, port: int, user: string, password: string, dbname: string, sslmode: string)
    requires host == "host" && port == 1234 && user == "user"
    requires password == "password" && dbname == "dbname" && sslmode == "false"
    ensures BuildConnectionString(host, port, user, password, dbname, sslmode)
      == "host=host port=1234 user=user password=password dbname=dbname sslmode=false"
  {
    assert NatDigits(12) == "12" && NatDigits(123) == "123" && Itoa(port) == "1234";
    ExampleText(BuildConnectionString(host, port, user, password, dbname, sslmode));
  }

  // Solver steps: the concatenation of the example's fields is folded into one literal
  // a piece at a time, which the verifier does not do on its own.
  lemma ExampleText(text: string)
    requires text == "host=" + "host" + " port=" + "1234" + " user=" + "user" + " password=" + "password" + " dbname=" + "dbname" + " sslmode=" + "false"
    ensures text == "host=host port=1234 user=user password=password dbname=dbname sslmode=false"
  {
    assert "host=" + "host" == "host=host";
    assert "host=host" + " port=" == "host=host port=";
    assert "host=host port=" + "1234" == "host=host port=1234";
    assert "host=host port=1234" + " user=" == "host=host port=1234 user=";
    assert "host=host port=1234 user=" + "user" == "host=host port=1234 user=user";
    assert "host=host port=1234 user=user" + " password=" == "host=host port=1234 user=user password=";
    assert "host=host port=1234 user=user password=" + "password" == "host=host port=1234 user=user password=password";
    assert "host=host port=1234 user=user password=password" + " dbname=" == "host=host port=1234 user=user password=password dbname=";
    assert "host=host port=1234 user=user password=password dbname=" + "dbname" == "host=host port=1234 user=user password=password dbname=dbname";
    assert "host=host port=1234 user=user password=password dbname=dbname" + " sslmode=" == "host=host port=1234 user=user password=password dbname=dbname sslmode=";
    assert "host=host port=1234 user=user password=password dbname=dbname sslmode=" + "false" == "host=host port=1234 user=user password=password dbname=dbname sslmode=false";
  }

  /** A failed port lookup (`-1`) is inserted verbatim as `port=-1`. */
  lemma FailedPortRendered(host: string, user: string, password: string, dbname: string, sslmode: string)
    ensures BuildConnectionString(host, -1, user, password, dbname, sslmode)
      == "host=" + host + " port=" + "-1" + " user=" + user
        + " password=" + password + " dbname=" + dbname + " sslmode=" + sslmode
  {
    assert Itoa(-1) == "-1";
  }

  /** Both connection strings open with the `host=` field. */
  lemma HostFieldFirst(host: string, port: int, user: string, password: string, dbname: string, sslmode: string)
    ensures BuildConnectionString(host, port, user, password, dbname, sslmode)[..5] == "host="
    ensures BuildConnectionStringForUnixDomainSocket(host, user, password, dbname)[..5] == "host="
  {
  }
}

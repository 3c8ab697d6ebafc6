// The back end's pure parts: the SQL Server connection settings built from
// a request (`buildConfig`), the list of allowed browser origins read from
// the ALLOWED_ORIGINS environment variable, the CORS origin check, and the
// argument check of the execute-query route. Opening connections and
// running queries are not modelled; a route's outcome is either an error
// response or the configuration and query it would run.

module Server {

  import opened Strings
  import opened JsValues

  const DefaultPort := 1433
  const DefaultDatabase := "master"

  /** The fields of a connection request; a field the client left out is
      `Undef`. */
  datatype ConnectionRequest = ConnectionRequest(
    server: Value, database: Value, username: Value, password: Value,
    authType: Value, port: Value)

  /** The driver options; `trustedConnection` is false when not set. */
  datatype Options = Options(
    encrypt: bool, trustServerCertificate: bool, enableArithAbort: bool,
    connectTimeout: nat, requestTimeout: nat, trustedConnection: bool)

  datatype PoolOptions = PoolOptions(max: nat, min: nat, idleTimeoutMillis: nat)

  /** The driver configuration; `user` and `password` are None when the
      properties are not set at all. */
  datatype Config = Config(
    server: Value, database: Value, port: int,
    options: Options, pool: PoolOptions,
    user: Option<Value>, password: Option<Value>)

  /** `buildConfig` either throws with a message or returns a configuration. */
  datatype Built = Threw(message: string) | Built(cfg: Config)

  const BaseOptions := Options(false, true, true, 30000, 30000, false)
  const BasePool := PoolOptions(5, 0, 30000)

  /** `Number.parseInt(port, 10) || 1433`, where a port left out defaults
      to 1433 before parsing and parseInt reads `String(port)`. */
  function PortOf(port: Value): (p: int)
    ensures p != 0
  {
    var given := if port == Undef then Num(DefaultPort) else port;
    match ParseInt(ToStr(given))
    case None => DefaultPort
    case Some(n) => if n == 0 then DefaultPort else n
  }

  /** `buildConfig(connection)`. */
  function BuildConfig(req: ConnectionRequest): (b: Built)
  {
    if !Truthy(req.server) then Threw("server is required")
    else
      var windows := req.authType == Str("windows");
      Built(Config(
        req.server,
        Or(req.database, Str(DefaultDatabase)),
        PortOf(req.port),
        BaseOptions.(trustedConnection := windows),
        BasePool,
        if windows then None else Some(req.username),
        if windows then None else Some(req.password)))
  }

  /** `buildConfig` throws exactly when the server is falsy. Otherwise the
      server is kept, a falsy database becomes "master" and a truthy one is
      kept, Windows authentication sets the trusted-connection flag and no
      credentials, and every other authentication type copies the user
      name and password. */
  lemma BuildConfigFields(req: ConnectionRequest)
    ensures BuildConfig(req).Threw? <==> !Truthy(req.server)
    ensures BuildConfig(req).Built? ==>
      var cfg := BuildConfig(req).cfg;
      && cfg.server == req.server
      && Truthy(cfg.database)
      && (Truthy(req.database) ==> cfg.database == req.database)
      && (!Truthy(req.database) ==> cfg.database == Str("master"))
      && cfg.port == PortOf(req.port)
      && (cfg.options.trustedConnection <==> req.authType == Str("windows"))
      && (cfg.options.trustedConnection ==> cfg.user.None? && cfg.password.None?)
      && (!cfg.options.trustedConnection ==> cfg.user == Some(req.username) && cfg.password == Some(req.password))
  {
  }

  /** An integer port, given as a number or as its decimal text, is used
      as it is unless it is 0. */
  lemma PortRoundTrip(n: int)
    requires n != 0
    ensures PortOf(Num(n)) == n
    ensures PortOf(Str(IntToStr(n))) == n
  {
    ParseIntOfIntToStr(n);
  }

  /** A port left out, null, empty or not a number, and the port 0, give
      1433. */
  lemma PortDefaults()
    ensures PortOf(Undef) == 1433
    ensures PortOf(Null) == 1433
    ensures PortOf(Str("")) == 1433
    ensures PortOf(Num(0)) == 1433
  {
    PortOfNumber(1433);
    PortOfNumber(0);
    PortOfNoDigit(Null, "null");
    PortOfNoDigit(Str(""), "");
  }

  lemma PortOfNumber(n: int)
    ensures PortOf(Num(n)) == if n == 0 then DefaultPort else n
    ensures n == DefaultPort ==> PortOf(Undef) == DefaultPort
  {
    ParseIntOfIntToStr(n);
  }

  lemma PortOfNoDigit(v: Value, text: string)
    requires v != Undef && ToStr(v) == text
    requires text == [] || (!IsWhitespace(text[0]) && !IsDigit(text[0]) && text[0] != '-' && text[0] != '+')
    ensures PortOf(v) == DefaultPort
  {
    ParseIntNoDigit(text);
  }

  /** parseInt finds no number in a text that starts with neither white
      space, a sign nor a digit. */
  lemma ParseIntNoDigit(s: string)
    requires s == [] || (!IsWhitespace(s[0]) && !IsDigit(s[0]) && s[0] != '-' && s[0] != '+')
    ensures ParseInt(s) == None
  {
    assert TrimStart(s) == s;
  }

  // ---------------------------------------------------------------------
  // ALLOWED_ORIGINS and the origin check
  // ---------------------------------------------------------------------

  /** No white space at either end: what `trim()` leaves. */
  predicate Trimmed(s: string) {
    s == [] || (!IsWhitespace(s[0]) && !IsWhitespace(s[|s| - 1]))
  }

  /** Trimming leaves a trimmed string without new characters. */
  lemma TrimSpec(s: string, c: char)
    ensures Trimmed(Trim(s))
    ensures c !in s ==> c !in Trim(s)
  {
    var t := TrimStart(s);
    var r := TrimEnd(t);
    if c in r {
      var i :| 0 <= i < |r| && r[i] == c;
      assert t[i] == c;
      assert s[|s| - |t| + i] == c;
    }
  }

  /** Trimming leaves a trimmed string unchanged. */
  lemma TrimOfTrimmed(s: string)
    requires Trimmed(s)
    ensures Trim(s) == s
  {
    assert TrimStart(s) == s;
    assert TrimEnd(s) == s;
  }

  /** `.map(s => s.trim())`. */
  function TrimAll(pieces: seq<string>): (r: seq<string>)
    ensures |r| == |pieces|
    ensures forall i :: 0 <= i < |pieces| ==> r[i] == Trim(pieces[i])
  {
    seq(|pieces|, i requires 0 <= i < |pieces| => Trim(pieces[i]))
  }

  /** `.filter(Boolean)` on strings: the non-empty ones, in order. */
  function NonEmpty(pieces: seq<string>): (r: seq<string>)
    ensures forall i :: 0 <= i < |r| ==> r[i] != ""
    ensures forall x :: x in r <==> x in pieces && x != ""
  {
    if pieces == [] then []
    else (if pieces[0] == "" then [] else [pieces[0]]) + NonEmpty(pieces[1..])
  }

  /** `(process.env.ALLOWED_ORIGINS || '').split(',').map(trim).filter(Boolean)`;
      None stands for an unset variable. */
  function AllowedOrigins(env: Option<string>): (origins: seq<string>)
  {
    var raw := if env.Some? then env.value else "";
    NonEmpty(TrimAll(Split(raw, ',')))
  }

  /** Every listed origin is a non-empty, trimmed, comma-free piece of the
      variable, and every non-blank piece is listed, trimmed. */
  lemma AllowedOriginsSpec(env: Option<string>)
    ensures var origins := AllowedOrigins(env);
      var pieces := Split(if env.Some? then env.value else "", ',');
      && (forall i :: 0 <= i < |origins| ==> origins[i] != "" && Trimmed(origins[i]) && ',' !in origins[i])
      && (forall x :: x in origins <==> x != "" && x in TrimAll(pieces))
  {
    var pieces := Split(if env.Some? then env.value else "", ',');
    var trimmed := TrimAll(pieces);
    var origins := NonEmpty(trimmed);
    forall i | 0 <= i < |origins|
      ensures Trimmed(origins[i]) && ',' !in origins[i]
    {
      assert origins[i] in trimmed;
      var j :| 0 <= j < |trimmed| && trimmed[j] == origins[i];
      TrimSpec(pieces[j], ',');
    }
  }

  /** Writing a list of non-empty, trimmed, comma-free origins into the
      variable, joined by commas, reads the same list back. */
  lemma AllowedOriginsRoundTrip(origins: seq<string>)
    requires forall i :: 0 <= i < |origins| ==> origins[i] != "" && Trimmed(origins[i]) && ',' !in origins[i]
    ensures AllowedOrigins(Some(Join(origins, ","))) == origins
  {
    if origins == [] {
      NoOrigins();
    } else {
      assert Split(Join(origins, ","), ',') == origins by {
        assert "," == [','];
        SplitJoin(origins, ',');
      }
      TrimAllOfTrimmed(origins);
      NonEmptyKeepsAll(origins);
    }
  }

  /** An unset or empty ALLOWED_ORIGINS lists no origin. */
  lemma NoOrigins()
    ensures AllowedOrigins(None) == []
    ensures AllowedOrigins(Some("")) == []
  {
    assert Split("", ',') == [""];
    assert Trim("") == "";
    assert TrimAll([""]) == [""];
    assert [""][1..] == [];
  }

  lemma TrimAllOfTrimmed(pieces: seq<string>)
    requires forall i :: 0 <= i < |pieces| ==> Trimmed(pieces[i])
    ensures TrimAll(pieces) == pieces
  {
    forall i | 0 <= i < |pieces|
      ensures Trim(pieces[i]) == pieces[i]
    {
      TrimOfTrimmed(pieces[i]);
    }
  }

  lemma {:induction false} NonEmptyKeepsAll(pieces: seq<string>)
    requires forall i :: 0 <= i < |pieces| ==> pieces[i] != ""
    ensures NonEmpty(pieces) == pieces
  {
    if pieces != [] {
      NonEmptyKeepsAll(pieces[1..]);
    }
  }

  /** The CORS origin callback: `cb(null, true)` or `cb(new Error(..))`. */
  datatype OriginVerdict = Allow | Reject(message: string)

  /** The origin callback installed when ALLOWED_ORIGINS lists something;
      a request without an Origin header is let through. */
  function CheckOrigin(allowed: seq<string>, origin: Option<string>): (v: OriginVerdict)
  {
    if origin.None? || origin.value == "" then Allow
    else if origin.value in allowed then Allow
    else Reject("Not allowed by CORS")
  }

  /** Whether a request's origin gets through: with an empty list the
      restricting middleware is not installed at all. */
  function Admitted(allowed: seq<string>, origin: Option<string>): bool {
    |allowed| == 0 || CheckOrigin(allowed, origin) == Allow
  }

  /** With origins configured, an origin is admitted iff it is absent or
      listed; a configured list written as comma-separated text admits
      exactly its members. */
  lemma OriginAdmittedIff(origins: seq<string>, origin: string)
    requires forall i :: 0 <= i < |origins| ==> origins[i] != "" && Trimmed(origins[i]) && ',' !in origins[i]
    ensures Admitted(AllowedOrigins(Some(Join(origins, ","))), None)
    ensures origin != "" ==>
      (Admitted(AllowedOrigins(Some(Join(origins, ","))), Some(origin)) <==> origins == [] || origin in origins)
  {
    AllowedOriginsRoundTrip(origins);
  }

  // ---------------------------------------------------------------------
  // execute-query
  // ---------------------------------------------------------------------

  /** The request body `{ connection, query }`; None for a missing body or
      connection. */
  datatype ExecuteBody = ExecuteBody(connection: Option<ConnectionRequest>, query: Value)

  /** A 400 answer with its message, or the query the route would run. */
  datatype ExecuteOutcome = BadRequest(message: string) | RunQuery(cfg: Config, query: Value)

  /** The checks of the execute-query route before the query runs. */
  function ExecuteQuery(body: Option<ExecuteBody>): (out: ExecuteOutcome)
  {
    if body.None? || body.value.connection.None? || !Truthy(body.value.query) then
      BadRequest("connection and query are required")
    else
      match BuildConfig(body.value.connection.value)
      case Threw(message) => BadRequest(message)
      case Built(cfg) => RunQuery(cfg, body.value.query)
  }

  /** The route answers 400 "connection and query are required" exactly
      when the connection or the query is missing, 400 "server is
      required" when only the server is; otherwise it runs the query it
      was given with the configuration built from the connection. */
  lemma ExecuteQueryGuard(body: Option<ExecuteBody>)
    ensures var missing := body.None? || body.value.connection.None? || !Truthy(body.value.query);
      && (ExecuteQuery(body) == BadRequest("connection and query are required") <==> missing)
      && (!missing ==>
            (ExecuteQuery(body) == BadRequest("server is required") <==> !Truthy(body.value.connection.value.server)))
      && (ExecuteQuery(body).RunQuery? ==>
            && ExecuteQuery(body).query == body.value.query
            && Built(ExecuteQuery(body).cfg) == BuildConfig(body.value.connection.value))
  {
  }
}

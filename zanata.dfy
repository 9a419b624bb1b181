/**
 * zanata: run one operation against a Zanata server's REST interface. The required
 * parameters of the operation are checked, the server URL is normalised, the request
 * for the operation is built and sent, and the reply is turned into the module's
 * exit result. The HTTP exchange itself is an input: the status, the transport's
 * message and the reply body, with JSON decoding passed in as `decode`.
 */
module Zanata {
  import opened Wrappers
  import opened JsonValues
  import opened Sequences

  datatype Command = CreateProject | CreateVersion | Detail | Modify | Stats | Config

  function CommandName(c: Command): string
  {
    match c
    case CreateProject => "create_project"
    case CreateVersion => "create_version"
    case Detail => "detail"
    case Modify => "modify"
    case Stats => "stats"
    case Config => "config"
  }

  /** The operations that change the server; the others only read. */
  predicate Writes(c: Command)
  {
    c == CreateProject || c == CreateVersion || c == Modify
  }

  // ---------------------------------------------------------------------------
  // Parameters and the required-parameter check

  datatype Param = Url | ProjectId | ProjectName | Username | Token | Description | ProjectType | Version

  function ParamName(p: Param): string
  {
    match p
    case Url => "url"
    case ProjectId => "project_id"
    case ProjectName => "project_name"
    case Username => "username"
    case Token => "token"
    case Description => "description"
    case ProjectType => "type"
    case Version => "version"
  }

  /** The module's string parameters; an omitted one is None. */
  datatype Params = Params(
    url: Option<string>,
    projectId: Option<string>,
    projectName: Option<string>,
    username: Option<string>,
    token: Option<string>,
    description: Option<string>,
    projectType: Option<string>,
    version: Option<string>)

  function Value(params: Params, p: Param): Option<string>
  {
    match p
    case Url => params.url
    case ProjectId => params.projectId
    case ProjectName => params.projectName
    case Username => params.username
    case Token => params.token
    case Description => params.description
    case ProjectType => params.projectType
    case Version => params.version
  }

  /** Python truthiness of a string-or-None parameter: given and not empty. */
  predicate Filled(v: Option<string>)
  {
    v.Some? && v.value != ""
  }

  /** PARAMS_REQUIRED: the parameters each operation needs, in the table's order. */
  function Required(c: Command): (ps: seq<Param>)
    ensures Url in ps && ProjectId in ps
    ensures Version in ps <==> c == CreateVersion || c == Stats || c == Config
    ensures Writes(c) <==> Username in ps && Token in ps
    ensures ProjectName in ps <==> c == CreateProject || c == Modify
    ensures Description in ps <==> c == CreateProject || c == Modify
    ensures ProjectType in ps <==> c == CreateProject || c == Modify
  {
    match c
    case CreateProject => [Url, ProjectId, ProjectName, Username, Token, Description, ProjectType]
    case CreateVersion => [Url, ProjectId, Version, Username, Token]
    case Detail => [Url, ProjectId]
    case Modify => [Url, ProjectId, ProjectName, Username, Token, Description, ProjectType]
    case Stats => [Url, ProjectId, Version]
    case Config => [Url, ProjectId, Version]
  }

  /** The parameters of `ps` whose values are not filled, in `ps`'s order. */
  function Missing(ps: seq<Param>, params: Params): seq<Param>
    decreases |ps|
  {
    if ps == [] then []
    else
      var last := ps[|ps| - 1];
      Missing(ps[..|ps| - 1], params) + (if Filled(Value(params, last)) then [] else [last])
  }

  /** A parameter is reported missing exactly when it is listed and its value is not filled. */
  lemma {:induction false} MissingExact(ps: seq<Param>, params: Params)
    ensures forall x :: x in Missing(ps, params) <==> x in ps && !Filled(Value(params, x))
    decreases |ps|
  {
    if ps != [] {
      var init := ps[..|ps| - 1];
      MissingExact(init, params);
      assert ps == init + [ps[|ps| - 1]];
    }
  }

  /** The missing parameters come in the order the table lists them. */
  lemma {:induction false} MissingInOrder(ps: seq<Param>, params: Params)
    ensures IsSubsequence(Missing(ps, params), ps)
    decreases |ps|
  {
    if ps != [] {
      var init := ps[..|ps| - 1];
      var last := ps[|ps| - 1];
      var m0 := Missing(init, params);
      MissingInOrder(init, params);
      if Filled(Value(params, last)) {
        assert Missing(ps, params) == m0;
        SubsequenceExtend(m0, init, last);
        assert init + [last] == ps;
      } else {
        assert Missing(ps, params) == m0 + [last];
        SubsequenceSnoc(m0, init, last);
        assert init + [last] == ps;
      }
    }
  }

  /** The loop in `main`: collect the required parameters that are not filled. */
  method MissingParams(c: Command, params: Params) returns (missing: seq<Param>)
    ensures missing == Missing(Required(c), params)
  {
    var required := Required(c);
    missing := [];
    for i := 0 to |required|
      invariant missing == Missing(required[..i], params)
    {
      assert required[..i + 1][..i] == required[..i];
      if !Filled(Value(params, required[i])) {
        missing := missing + [required[i]];
      }
    }
    assert required[..|required|] == required;
  }

  /** Python's `sep.join(xs)`. */
  function Join(sep: string, xs: seq<string>): string
    decreases |xs|
  {
    if xs == [] then ""
    else if |xs| == 1 then xs[0]
    else xs[0] + sep + Join(sep, xs[1..])
  }

  function Names(ps: seq<Param>): (names: seq<string>)
    ensures |names| == |ps|
    ensures forall i :: 0 <= i < |ps| ==> names[i] == ParamName(ps[i])
  {
    seq(|ps|, i requires 0 <= i < |ps| => ParamName(ps[i]))
  }

  /** Every joined item appears in the joined string. */
  lemma {:induction false} JoinContains(sep: string, xs: seq<string>, i: nat)
    requires i < |xs|
    ensures IsSubstring(xs[i], Join(sep, xs))
    decreases |xs|
  {
    if |xs| == 1 {
      assert xs[0] <= Join(sep, xs);
    } else if i == 0 {
      assert xs[0] <= xs[0] + sep + Join(sep, xs[1..]);
    } else {
      JoinContains(sep, xs[1..], i - 1);
      SubstringInSuffix(xs[i], xs[0] + sep, Join(sep, xs[1..]));
    }
  }

  /** Every name in the list appears in the joined list, whatever comes before it. */
  lemma NamesOccur(prefix: string, missing: seq<Param>)
    ensures forall i :: 0 <= i < |missing| ==> IsSubstring(ParamName(missing[i]), prefix + Join(", ", Names(missing)))
  {
    var names := Names(missing);
    forall i | 0 <= i < |missing| ensures IsSubstring(ParamName(missing[i]), prefix + Join(", ", names)) {
      JoinContains(", ", names, i);
      SubstringInSuffix(names[i], prefix, Join(", ", names));
    }
  }

  /**
   * The failure message: it opens with the operation's name, and every missing
   * parameter's option name appears in it.
   */
  function MissingMessage(c: Command, missing: seq<Param>): (m: string)
    ensures var prefix := "[ " + CommandName(c) + " ] operation requires: ";
      |m| >= |prefix| && m[..|prefix|] == prefix
    ensures forall i :: 0 <= i < |missing| ==> IsSubstring(ParamName(missing[i]), m)
  {
    var prefix := "[ " + CommandName(c) + " ] operation requires: ";
    NamesOccur(prefix, missing);
    prefix + Join(", ", Names(missing))
  }

  // ---------------------------------------------------------------------------
  // The server URL

  /** Python's `s.endswith('/')`. */
  predicate EndsWithSlash(s: string)
  {
    |s| > 0 && s[|s| - 1] == '/'
  }

  /** The URL with a trailing slash: unchanged when it has one, extended by one otherwise. */
  function NormaliseUrl(url: string): (u: string)
    ensures EndsWithSlash(u)
    ensures EndsWithSlash(url) ==> u == url
    ensures !EndsWithSlash(url) ==> u == url + "/"
  {
    if EndsWithSlash(url) then url else url + "/"
  }

  /** Normalising twice is normalising once. */
  lemma NormaliseIdempotent(url: string)
    ensures NormaliseUrl(NormaliseUrl(url)) == NormaliseUrl(url)
  {
  }

  /** The REST root every request path is appended to. */
  function BaseUrl(url: string): (b: string)
    ensures |b| == |NormaliseUrl(url)| + 4
    ensures b[..|NormaliseUrl(url)|] == NormaliseUrl(url) && b[|NormaliseUrl(url)|..] == "rest"
  {
    NormaliseUrl(url) + "rest"
  }

  // ---------------------------------------------------------------------------
  // Requests

  datatype HttpMethod = Put | Get

  /** The `op` tag `rest_call` uses to pick the reply handling. */
  datatype Op = NoOp | OpCreate | OpModify | OpConfig

  /** What an operation asks `rest_call` for. */
  datatype RestArgs = RestArgs(url: string, user: Option<string>, token: Option<string>,
                               data: Option<map<string, Json>>, verb: HttpMethod, op: Op)

  /** The request that goes out: the method, the URL, the headers and the JSON body. */
  datatype Request = Request(verb: HttpMethod, url: string, headers: map<string, string>,
                             body: Option<map<string, Json>>)

  /**
   * The headers `rest_call` sends: JSON content always; the credentials exactly when
   * both are filled; XML accepted for the config operation and JSON otherwise.
   */
  function HeadersFor(user: Option<string>, token: Option<string>, op: Op): (h: map<string, string>)
    ensures h.Keys == {"Accept", "Content-Type"} +
              (if Filled(user) && Filled(token) then {"X-Auth-User", "X-Auth-Token"} else {})
    ensures h["Content-Type"] == "application/json"
    ensures h["Accept"] == if op == OpConfig then "application/xml" else "application/json"
    ensures Filled(user) && Filled(token) ==> h["X-Auth-User"] == user.value && h["X-Auth-Token"] == token.value
  {
    var base := map["Accept" := "application/json", "Content-Type" := "application/json"];
    var withAuth := if Filled(user) && Filled(token) then base["X-Auth-User" := user.value]["X-Auth-Token" := token.value]
                    else base;
    if op == OpConfig then withAuth["Accept" := "application/xml"] else withAuth
  }

  /** The request `rest_call` sends for `args`. */
  function SentFor(args: RestArgs): Request
  {
    Request(args.verb, args.url, HeadersFor(args.user, args.token, args.op), args.data)
  }

  /** A string-or-None parameter as a JSON body value. */
  function JsonOf(v: Option<string>): Json
  {
    if v.Some? then JStr(v.value) else JNull
  }

  /** The parameters the URL builders concatenate are strings (None would raise). */
  predicate PathParams(c: Command, params: Params)
  {
    params.projectId.Some? && (c == CreateVersion || c == Stats || c == Config ==> params.version.Some?)
  }

  /** create_project, and modify through it: PUT the project's name, id, description and type. */
  function ProjectArgs(base: string, params: Params, opModify: bool): (a: RestArgs)
    requires params.projectId.Some?
    ensures a.url == base + "/projects/p/" + params.projectId.value
    ensures a.verb == Put && a.user == params.username && a.token == params.token
    ensures a.op == if opModify then OpModify else OpCreate
    ensures a.data.Some? && a.data.value.Keys == {"name", "id", "description", "type"}
    ensures a.data.value["id"] == JStr(params.projectId.value) && a.data.value["name"] == JsonOf(params.projectName)
    ensures a.data.value["description"] == JsonOf(params.description) && a.data.value["type"] == JsonOf(params.projectType)
  {
    var body := map["name" := JsonOf(params.projectName), "id" := JsonOf(params.projectId),
                    "description" := JsonOf(params.description), "type" := JsonOf(params.projectType)];
    RestArgs(base + "/projects/p/" + params.projectId.value, params.username, params.token, Some(body), Put,
             if opModify then OpModify else OpCreate)
  }

  /**
   * What each operation asks `rest_call` for: the writes PUT a JSON body with the
   * credentials to the project or version path; the reads GET the project, version
   * statistics or version configuration path with neither.
   */
  function ArgsFor(c: Command, base: string, params: Params): (a: RestArgs)
    requires PathParams(c, params)
    ensures a.verb == (if Writes(c) then Put else Get)
    ensures a.data.Some? <==> Writes(c)
    ensures Writes(c) ==> a.user == params.username && a.token == params.token
    ensures !Writes(c) ==> a.user.None? && a.token.None?
    ensures a.op == match c
                    case CreateProject => OpCreate
                    case CreateVersion => OpCreate
                    case Modify => OpModify
                    case Config => OpConfig
                    case _ => NoOp
    ensures c == CreateProject || c == Modify || c == Detail ==>
              a.url == base + "/projects/p/" + params.projectId.value
    ensures c == CreateVersion ==>
              a.url == base + "/project/" + params.projectId.value + "/version/" + params.version.value &&
              a.data == Some(map["id" := JStr(params.version.value)])
    ensures c == Config ==>
              a.url == base + "/project/" + params.projectId.value + "/version/" + params.version.value + "/config"
    ensures c == Stats ==>
              a.url == base + "/stats/proj/" + params.projectId.value + "/iter/" + params.version.value
  {
    var id := params.projectId.value;
    match c
    case CreateProject => ProjectArgs(base, params, false)
    case Modify => ProjectArgs(base, params, true)
    case CreateVersion =>
      RestArgs(base + "/project/" + id + "/version/" + params.version.value, params.username, params.token,
               Some(map["id" := JStr(params.version.value)]), Put, OpCreate)
    case Stats => RestArgs(base + "/stats/proj/" + id + "/iter/" + params.version.value, None, None, None, Get, NoOp)
    case Detail => RestArgs(base + "/projects/p/" + id, None, None, None, Get, NoOp)
    case Config =>
      RestArgs(base + "/project/" + id + "/version/" + params.version.value + "/config", None, None, None, Get, OpConfig)
  }

  // ---------------------------------------------------------------------------
  // Replies

  predicate StatusOk(status: int)
  {
    status == 200 || status == 201 || status == 204
  }

  /** The reply body goes through `json.loads`: an accepted status with no fixed message, a body, not config. */
  predicate Decodes(op: Op, status: int, body: string)
  {
    StatusOk(status) && !(status == 201 && op == OpCreate) && !(status == 200 && op == OpModify) &&
    body != "" && op != OpConfig
  }

  /**
   * What `rest_call` makes of the reply: a status outside StatusOk fails with the
   * transport's message; 201 to a create and 200 to a modify give a fixed message;
   * otherwise a config reply is the raw body, another non-empty body is decoded, and an
   * empty body is the empty object.
   */
  function Interpret(op: Op, status: int, transportMsg: string, body: string, decode: string -> Result<Json, string>)
    : (r: Result<Json, string>)
    ensures !StatusOk(status) ==> r == Failure(transportMsg)
    ensures Decodes(op, status, body) ==> r == decode(body)
    ensures r.Failure? <==> !StatusOk(status) || (Decodes(op, status, body) && decode(body).Failure?)
    ensures status == 201 && op == OpCreate ==> r == Success(JStr("Creation successful!"))
    ensures status == 200 && op == OpModify ==> r == Success(JStr("Modification successful!"))
    ensures StatusOk(status) && body == "" && !(status == 201 && op == OpCreate) && !(status == 200 && op == OpModify) ==>
              r == Success(JObj(map[]))
    ensures StatusOk(status) && op == OpConfig ==> r == Success(if body == "" then JObj(map[]) else JStr(body))
  {
    if !StatusOk(status) then Failure(transportMsg)
    else if status == 201 && op == OpCreate then Success(JStr("Creation successful!"))
    else if status == 200 && op == OpModify then Success(JStr("Modification successful!"))
    else if body != "" && op == OpConfig then Success(JStr(body))
    else if body != "" then decode(body)
    else Success(JObj(map[]))
  }

  /**
   * rest_call: build the headers step by step, send the request and classify the reply.
   * The exchange is given as the reply's status, the transport's message and the body.
   */
  method RestCall(args: RestArgs, status: int, transportMsg: string, body: string,
                  decode: string -> Result<Json, string>) returns (sent: Request, reply: Result<Json, string>)
    ensures sent == SentFor(args)
    ensures reply == Interpret(args.op, status, transportMsg, body, decode)
  {
    var headers := map["Accept" := "application/json", "Content-Type" := "application/json"];
    if Filled(args.user) && Filled(args.token) {
      headers := headers["X-Auth-User" := args.user.value];
      headers := headers["X-Auth-Token" := args.token.value];
    }
    if args.op == OpConfig {
      headers := headers["Accept" := "application/xml"];
    }
    sent := Request(args.verb, args.url, headers, args.data);
    if !StatusOk(status) {
      return sent, Failure(transportMsg);
    } else if status == 201 && args.op == OpCreate {
      return sent, Success(JStr("Creation successful!"));
    } else if status == 200 && args.op == OpModify {
      return sent, Success(JStr("Modification successful!"));
    }
    if body != "" && args.op == OpConfig {
      reply := Success(JStr(body));
    } else if body != "" {
      reply := decode(body);
    } else {
      reply := Success(JObj(map[]));
    }
  }

  // ---------------------------------------------------------------------------
  // The exit result

  /** The keys `exit_json` is given: `changed` and `msg`, each possibly absent. */
  datatype ExitResult = ExitResult(changed: Option<bool>, msg: Option<Json>)

  /** prepare_exit_json: `changed` is set, to true, for the writing operations; `msg` holds a truthy return. */
  function PrepareExit(c: Command, serverReturn: Json): (e: ExitResult)
    ensures e.changed.Some? <==> Writes(c)
    ensures e.changed.Some? ==> e.changed.value
    ensures e.msg.Some? <==> Truthy(serverReturn)
    ensures e.msg.Some? ==> e.msg.value == serverReturn
  {
    ExitResult(if Writes(c) then Some(true) else None, if Truthy(serverReturn) then Some(serverReturn) else None)
  }

  // ---------------------------------------------------------------------------
  // One run of the module

  /** The request the module sends, if it gets that far. */
  function SentRequest(c: Command, params: Params): Option<Request>
  {
    if Missing(Required(c), params) != [] then None
    else
      MissingExact(Required(c), params);
      Some(SentFor(ArgsFor(c, BaseUrl(params.url.value), params)))
  }

  /**
   * The module's outcome: the missing-parameter failure, the reply's failure, or the
   * exit result of the operation's return, which for modify is always None.
   */
  function Outcome(c: Command, params: Params, status: int, transportMsg: string, body: string,
                   decode: string -> Result<Json, string>): Result<ExitResult, string>
  {
    var missing := Missing(Required(c), params);
    if missing != [] then Failure(MissingMessage(c, missing))
    else
      MissingExact(Required(c), params);
      var args := ArgsFor(c, BaseUrl(params.url.value), params);
      match Interpret(args.op, status, transportMsg, body, decode)
      case Failure(e) => Failure(e)
      case Success(ret) => Success(PrepareExit(c, if c == Modify then JNull else ret))
  }

  /**
   * main after argument parsing: check the required parameters, normalise the URL,
   * dispatch on the operation and shape the exit result.
   */
  method Run(c: Command, params: Params, status: int, transportMsg: string, body: string,
             decode: string -> Result<Json, string>) returns (sent: Option<Request>, r: Result<ExitResult, string>)
    ensures sent == SentRequest(c, params)
    ensures r == Outcome(c, params, status, transportMsg, body, decode)
  {
    var missing := MissingParams(c, params);
    if |missing| > 0 {
      return None, Failure(MissingMessage(c, missing));
    }
    MissingExact(Required(c), params);
    var url := params.url.value;
    if !EndsWithSlash(url) {
      url := url + "/";
    }
    var base := url + "rest";
    var request, reply := RestCall(ArgsFor(c, base, params), status, transportMsg, body, decode);
    sent := Some(request);
    if reply.Failure? {
      return sent, Failure(reply.error);
    }
    var serverReturn := reply.value;
    if c == Modify {
      serverReturn := JNull;
    }
    r := Success(PrepareExit(c, serverReturn));
  }

  // ---------------------------------------------------------------------------
  // Properties

  /** The check fails exactly when a required parameter is not filled, and names the operation. */
  lemma MissingFails(c: Command, params: Params, status: int, transportMsg: string, body: string,
                     decode: string -> Result<Json, string>)
    ensures (exists x :: x in Required(c) && !Filled(Value(params, x))) <==>
              SentRequest(c, params).None? && Outcome(c, params, status, transportMsg, body, decode).Failure?
    ensures SentRequest(c, params).None? ==>
              Outcome(c, params, status, transportMsg, body, decode) ==
              Failure(MissingMessage(c, Missing(Required(c), params)))
  {
    MissingExact(Required(c), params);
    var m := Missing(Required(c), params);
    if m != [] {
      assert m[0] in m;
    }
  }

  /** create_project and modify send the same request to the same URL; only the op tag differs. */
  lemma CreateAndModifyAgree(base: string, params: Params)
    requires params.projectId.Some?
    ensures ArgsFor(Modify, base, params) == ArgsFor(CreateProject, base, params).(op := OpModify)
    ensures ArgsFor(CreateProject, base, params).op == OpCreate
  {
  }

  /**
   * The writing operations PUT a body with the credentials; the reading ones GET
   * without a body or credentials. Every path lies under the REST root.
   */
  lemma WritesPutReadsGet(c: Command, base: string, params: Params)
    requires PathParams(c, params)
    ensures var a := ArgsFor(c, base, params);
      (Writes(c) <==> a.verb == Put) && (a.verb == Put <==> a.data.Some?) &&
      (!Writes(c) ==> a.user.None? && a.token.None?) &&
      (Writes(c) ==> a.user == params.username && a.token == params.token) &&
      |a.url| > |base| && a.url[..|base| + 1] == base + "/"
  {
    var a := ArgsFor(c, base, params);
    var rest := a.url[|base|..];
    assert a.url == base + rest;
    assert rest[0] == '/';
    assert a.url[..|base| + 1] == base + [rest[0]];
  }

  /** config reads the version's path with `/config` appended, detail the project's path. */
  lemma ReadPathsFollowWritePaths(base: string, params: Params)
    requires params.projectId.Some? && params.version.Some?
    ensures ArgsFor(Config, base, params).url == ArgsFor(CreateVersion, base, params).url + "/config"
    ensures ArgsFor(Detail, base, params).url == ArgsFor(CreateProject, base, params).url
  {
  }

  /** Only config asks for XML, and only the writing operations send credentials. */
  lemma HeadersByOperation(c: Command, base: string, params: Params)
    requires PathParams(c, params)
    ensures var h := SentFor(ArgsFor(c, base, params)).headers;
      h["Accept"] == (if c == Config then "application/xml" else "application/json") &&
      ("X-Auth-Token" in h <==> Writes(c) && Filled(params.username) && Filled(params.token))
  {
  }

  /** A successful modify exits with `changed` and never with a message. */
  lemma ModifyReportsNoMessage(params: Params, status: int, transportMsg: string, body: string,
                               decode: string -> Result<Json, string>)
    ensures var r := Outcome(Modify, params, status, transportMsg, body, decode);
      r.Success? ==> r.value == ExitResult(Some(true), None)
  {
  }

  /** A successful create_project answered 201 reports the fixed creation message. */
  lemma CreateReportsMessage(params: Params, transportMsg: string, body: string,
                             decode: string -> Result<Json, string>)
    requires Missing(Required(CreateProject), params) == []
    ensures Outcome(CreateProject, params, 201, transportMsg, body, decode) ==
            Success(ExitResult(Some(true), Some(JStr("Creation successful!"))))
  {
    MissingExact(Required(CreateProject), params);
  }

  /** A successful create_version answered 201 reports the same fixed creation message. */
  lemma CreateVersionReportsMessage(params: Params, transportMsg: string, body: string,
                                    decode: string -> Result<Json, string>)
    requires Missing(Required(CreateVersion), params) == []
    ensures Outcome(CreateVersion, params, 201, transportMsg, body, decode) ==
            Success(ExitResult(Some(true), Some(JStr("Creation successful!"))))
  {
    MissingExact(Required(CreateVersion), params);
    var args := ArgsFor(CreateVersion, BaseUrl(params.url.value), params);
    assert args.op == OpCreate;
    assert Interpret(args.op, 201, transportMsg, body, decode) == Success(JStr("Creation successful!"));
  }

  /** config reports the raw reply body under `msg`, and never `changed`. */
  lemma ConfigReportsRawBody(params: Params, status: int, transportMsg: string, body: string,
                             decode: string -> Result<Json, string>)
    requires Missing(Required(Config), params) == [] && StatusOk(status) && body != ""
    ensures Outcome(Config, params, status, transportMsg, body, decode) == Success(ExitResult(None, Some(JStr(body))))
  {
    MissingExact(Required(Config), params);
  }

  /**
   * detail and stats report the decoded reply under `msg` when it is truthy, and nothing
   * at all for an empty body (the empty object is falsy).
   */
  lemma ReadsReportDecodedBody(c: Command, params: Params, status: int, transportMsg: string, body: string,
                               decode: string -> Result<Json, string>)
    requires (c == Detail || c == Stats) && Missing(Required(c), params) == [] && StatusOk(status)
    ensures body == "" ==> Outcome(c, params, status, transportMsg, body, decode) == Success(ExitResult(None, None))
    ensures body != "" && decode(body).Success? ==>
              Outcome(c, params, status, transportMsg, body, decode) ==
              Success(ExitResult(None, if Truthy(decode(body).value) then Some(decode(body).value) else None))
  {
    MissingExact(Required(c), params);
  }
}

/**
 * The FreeIPA JSON-RPC client both IPA modules define (`IPAClient`), and the server
 * it talks to, seen as a store of named entries.
 *
 * Every mutating request the client posts is recorded in `calls`, and its effect on
 * the store is `Apply`. Lookups (`*_find`) are not recorded: they change nothing.
 */
module IpaClient {
  import opened Wrappers
  import opened JsonValues
  import opened IpaValues
  import opened Sequences

  /** The member attributes the modules read from an entry. */
  datatype MemberAttr =
    | MemberhostHost | MemberhostHostgroup
    | MemberserviceHbacsvc | MemberserviceHbacsvcgroup
    | SourcehostHost | SourcehostGroup
    | MemberuserUser | MemberuserGroup
    | MemberSudocmd

  /** The attribute name IPA reports the members under. */
  function AttrName(a: MemberAttr): string
  {
    match a
    case MemberhostHost => "memberhost_host"
    case MemberhostHostgroup => "memberhost_hostgroup"
    case MemberserviceHbacsvc => "memberservice_hbacsvc"
    case MemberserviceHbacsvcgroup => "memberservice_hbacsvcgroup"
    case SourcehostHost => "sourcehost_host"
    case SourcehostGroup => "sourcehost_group"
    case MemberuserUser => "memberuser_user"
    case MemberuserGroup => "memberuser_group"
    case MemberSudocmd => "member_sudocmd"
  }

  /** An entry (an HBAC rule, a sudo command group): plain attributes and member lists. */
  datatype Entry = Entry(attrs: map<string, Value>, members: map<MemberAttr, set<string>>)

  /** `set(entry.get(attr, []))`. */
  function MembersOf(e: Entry, a: MemberAttr): set<string>
  {
    if a in e.members then e.members[a] else {}
  }

  /**
   * How one member list is posted: the add and remove methods, the key the list is
   * wrapped under in the request item, and the attribute the server files it under.
   */
  datatype Slot = Slot(addMethod: string, removeMethod: string, itemKey: string, attr: MemberAttr)

  /**
   * A mutating request: `{'method': rpc, 'params': [[name], item]}`. For the member
   * requests the method is the slot's and the item is `{slot.itemKey: values}`.
   */
  datatype Call =
    | AddEntry(rpc: string, name: string, item: Dict)
    | ModEntry(rpc: string, name: string, item: Dict)
    | DelEntry(rpc: string, name: string)
    | AddMembers(slot: Slot, name: string, values: set<string>)
    | RemoveMembers(slot: Slot, name: string, values: set<string>)

  /** The JSON-RPC method a call posts. */
  function MethodOf(c: Call): string
  {
    match c
    case AddEntry(rpc, _, _) => rpc
    case ModEntry(rpc, _, _) => rpc
    case DelEntry(rpc, _) => rpc
    case AddMembers(slot, _, _) => slot.addMethod
    case RemoveMembers(slot, _, _) => slot.removeMethod
  }

  function SetMembers(e: Entry, a: MemberAttr, s: set<string>): (e': Entry)
    ensures e'.attrs == e.attrs
    ensures forall b :: MembersOf(e', b) == if b == a then s else MembersOf(e, b)
  {
    e.(members := e.members[a := s])
  }

  /** What the server does with a call: the store after it. */
  function Apply(store: map<string, Entry>, c: Call): map<string, Entry>
  {
    match c
    case AddEntry(_, name, item) => store[name := Entry(AttrMap(item), map[])]
    case ModEntry(_, name, item) =>
      if name in store then store[name := store[name].(attrs := store[name].attrs + AttrMap(item))] else store
    case DelEntry(_, name) => store - {name}
    case AddMembers(slot, name, values) =>
      if name in store then store[name := SetMembers(store[name], slot.attr, MembersOf(store[name], slot.attr) + values)]
      else store
    case RemoveMembers(slot, name, values) =>
      if name in store then store[name := SetMembers(store[name], slot.attr, MembersOf(store[name], slot.attr) - values)]
      else store
  }

  /** The store after a sequence of calls, in order. */
  function ApplyAll(store: map<string, Entry>, cs: seq<Call>): map<string, Entry>
    decreases |cs|
  {
    if cs == [] then store else ApplyAll(Apply(store, cs[0]), cs[1..])
  }

  lemma {:induction false} ApplyAllConcat(store: map<string, Entry>, a: seq<Call>, b: seq<Call>)
    ensures ApplyAll(store, a + b) == ApplyAll(ApplyAll(store, a), b)
    decreases |a|
  {
    if a != [] {
      assert (a + b)[0] == a[0] && (a + b)[1..] == a[1..] + b;
      ApplyAllConcat(Apply(store, a[0]), a[1..], b);
    } else {
      assert a + b == b;
    }
  }

  lemma ApplyAllOne(store: map<string, Entry>, c: Call)
    ensures ApplyAll(store, [c]) == Apply(store, c)
  {
    assert [c][0] == c && [c][1..] == [];
    assert ApplyAll(store, [c]) == ApplyAll(Apply(store, c), []);
  }

  lemma ApplyAllSnoc(store: map<string, Entry>, cs: seq<Call>, c: Call)
    ensures ApplyAll(store, cs + [c]) == Apply(ApplyAll(store, cs), c)
  {
    ApplyAllConcat(store, cs, [c]);
    assert [c][1..] == [];
  }

  /** `name`'s entry in the store, as `*_find` returns it. */
  function EntryOf(store: map<string, Entry>, name: string): Option<Entry>
  {
    if name in store then Some(store[name]) else None
  }

  // ---------------------------------------------------------------------------
  // Replies

  /** The statuses `login` and `_post_json` accept. */
  predicate StatusOk(status: int)
  {
    status == 200 || status == 201 || status == 204
  }

  /** Why `_post_json` fails. */
  datatype PostError =
    | Rejected(rpc: string, body: string)    // a status outside StatusOk, with the reply body
    | ErrorReply(rpc: string, error: Json)   // the reply's `error` member is not null
    | Malformed(rpc: string)                 // the reply has a shape the unwrapping raises on

  /** Python's `'result' in j`; None where Python raises a TypeError. */
  function HasResultKey(j: Json): Option<bool>
  {
    match j
    case JObj(fields) => Some("result" in fields)
    case JStr(s) => Some(IsSubstring("result", s))
    case JArr(items) => Some(JStr("result") in items)
    case _ => None
  }

  ghost predicate HasError(fields: map<string, Json>)
  {
    "error" in fields && fields["error"] != JNull
  }

  /**
   * `_post_json` after the request: check the status, then unwrap the decoded reply
   * `resp`. An error member fails; otherwise `result`, then `result.result`, and the
   * first element when that is a non-empty list. `body` is the transport's error body.
   */
  function PostReply(rpc: string, status: int, body: string, resp: Json): (r: Result<Json, PostError>)
    ensures !StatusOk(status) ==> r == Failure(Rejected(rpc, body))
    ensures StatusOk(status) && resp.JObj? && HasError(resp.fields) ==>
              r == Failure(ErrorReply(rpc, resp.fields["error"]))
    ensures StatusOk(status) && resp.JObj? && !HasError(resp.fields) && "result" !in resp.fields ==>
              r == Success(JNull)
    ensures StatusOk(status) && resp.JObj? && !HasError(resp.fields) && "result" in resp.fields &&
            resp.fields["result"].JObj? && "result" in resp.fields["result"].fields ==>
              var inner := resp.fields["result"].fields["result"];
              r == Success(if inner.JArr? && inner.items != [] then inner.items[0] else inner)
    ensures StatusOk(status) && resp.JObj? && !HasError(resp.fields) && "result" in resp.fields &&
            resp.fields["result"].JObj? && "result" !in resp.fields["result"].fields ==>
              r == Success(resp.fields["result"])
    ensures r.Failure? ==> r.error.rpc == rpc
  {
    if !StatusOk(status) then Failure(Rejected(rpc, body))
    else if !resp.JObj? then Failure(Malformed(rpc))
    else
      var fields := resp.fields;
      if "error" in fields && fields["error"] != JNull then Failure(ErrorReply(rpc, fields["error"]))
      else if "result" !in fields then Success(JNull)
      else
        var result := fields["result"];
        match HasResultKey(result)
        case None => Failure(Malformed(rpc))
        case Some(false) => Success(result)
        case Some(true) =>
          if result.JObj? then
            var inner := result.fields["result"];
            if inner.JArr? && |inner.items| > 0 then Success(inner.items[0]) else Success(inner)
          else Failure(Malformed(rpc))
  }

  // ---------------------------------------------------------------------------
  // The client

  /** The headers a logged-in client posts with. */
  datatype Headers = Headers(referer: string, contentType: string, accept: string, cookie: string)

  class Client {
    const host: string
    /** Stored, but no URL uses it. */
    const port: int
    const protocol: string
    /** Set by a successful login. */
    var headers: Option<Headers>
    /** The server's entries, by name. */
    var entries: map<string, Entry>
    /** The mutating calls posted so far, oldest first. */
    var calls: seq<Call>
    /** The server's entries before the first call. */
    ghost const origin: map<string, Entry>

    /** The server's entries are those it started with, changed by the calls posted since. */
    ghost predicate Valid()
      reads this
    {
      entries == ApplyAll(origin, calls)
    }

    constructor (host: string, port: int, protocol: string, entries: map<string, Entry>)
      ensures this.host == host && this.port == port && this.protocol == protocol
      ensures this.headers == None && this.entries == entries && this.calls == []
      ensures Valid()
    {
      this.origin := entries;
      this.host := host;
      this.port := port;
      this.protocol := protocol;
      this.headers := None;
      this.entries := entries;
      this.calls := [];
    }

    /** `protocol://host/ipa`: protocol and host can be read back from it; the port is not in it. */
    function BaseUrl(): (u: string)
      ensures |u| == |protocol| + 3 + |host| + 4
      ensures u[..|protocol|] == protocol && u[|protocol|..|protocol| + 3] == "://"
      ensures u[|protocol| + 3..|u| - 4] == host && u[|u| - 4..] == "/ipa"
    {
      protocol + "://" + host + "/ipa"
    }

    /** The JSON-RPC endpoint every post goes to: the base URL followed by `/session/json`. */
    function JsonUrl(): (u: string)
      ensures |u| == |BaseUrl()| + 13
      ensures u[..|BaseUrl()|] == BaseUrl() && u[|BaseUrl()|..] == "/session/json"
    {
      BaseUrl() + "/session/json"
    }

    /**
     * `login`, given the status and body of the login reply and the session cookie it
     * set: a status outside StatusOk fails with `login: <body>` and leaves the headers
     * as they were; otherwise the JSON session headers are stored.
     */
    method Login(status: int, body: string, cookie: string) returns (r: Result<(), string>)
      modifies this`headers
      ensures StatusOk(status) ==>
                r == Success(()) && headers == Some(Headers(BaseUrl(), "application/json", "application/json", cookie))
      ensures !StatusOk(status) ==> r == Failure("login: " + body) && headers == old(headers)
    {
      if !StatusOk(status) {
        return Failure("login: " + body);
      }
      headers := Some(Headers(BaseUrl(), "application/json", "application/json", cookie));
      r := Success(());
    }

    /** `*_find`: the entry of that name, None when there is none. Nothing changes. */
    method Find(name: string) returns (r: Option<Entry>)
      ensures r.Some? <==> name in entries
      ensures r.Some? ==> r.value == entries[name]
    {
      if name in entries {
        r := Some(entries[name]);
      } else {
        r := None;
      }
    }

    /**
     * A mutating `_post_json`: the call is recorded, the server applies it, and the
     * reply is the entry as it now stands (None once it is deleted).
     */
    method Post(c: Call) returns (reply: Option<Entry>)
      requires Valid()
      modifies this`entries, this`calls
      ensures Valid()
      ensures entries == Apply(old(entries), c)
      ensures calls == old(calls) + [c]
      ensures reply == EntryOf(entries, c.name)
    {
      ApplyAllSnoc(origin, calls, c);
      entries := Apply(entries, c);
      calls := calls + [c];
      reply := EntryOf(entries, c.name);
    }
  }
}

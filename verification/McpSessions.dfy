/** The live sessions of one process (specivo/mcp/persistent_session_manager.py): which
    transport serves a request, and with which credential. */
module McpSessions {
  import opened Wrappers
  import opened SessionStore
  import Ascii

  /** A live transport; `serial` tells it from every other one. `initialized` is how its
      connection is born: a rehydrated one skips the handshake. */
  datatype Transport = Transport(serial: nat, id: string, initialized: bool)

  /** Whom a usable key belongs to. */
  datatype Owner = Owner(apiKeyId: nat, userId: nat)

  /** `_server_instances` and `_session_owners`. A requestor is a raw key: the SDK compares
      a digest of it. */
  datatype Maps = Maps(instances: map<string, Transport>, owners: map<string, string>)

  const API_KEY_ID := "api_key_id"
  const USER_ID := "user_id"

  // -------------------------------------------------------------------------
  // The persisted owner
  // -------------------------------------------------------------------------

  /** The owner as Redis holds it. */
  function Texts(owner: Owner): (string, string) {
    (Ascii.Decimal(owner.apiKeyId), Ascii.Decimal(owner.userId))
  }

  /** The recorded owner, when both fields are there and not empty. */
  function StoredOwner(persisted: Fields): Option<(string, string)> {
    if API_KEY_ID in persisted && USER_ID in persisted && persisted[API_KEY_ID] != "" && persisted[USER_ID] != ""
    then Some((persisted[API_KEY_ID], persisted[USER_ID]))
    else None
  }

  /** `_owns_persisted_session`, given what the request's key resolves to. */
  predicate Owns(persisted: Fields, requestor: Option<string>, resolved: Option<Owner>) {
    requestor.Some? && StoredOwner(persisted).Some? && resolved.Some?
      && Texts(resolved.value) == StoredOwner(persisted).value
  }

  /** The metadata of a new session. */
  function Metadata(owner: Owner, userAgent: Option<string>): seq<(string, Option<string>)> {
    [("transport", Some("streamable_http")), ("user_agent", userAgent),
     (API_KEY_ID, Some(Texts(owner).0)), (USER_ID, Some(Texts(owner).1))]
  }

  /** What a new session persists is its owner. */
  lemma PayloadNamesOwner(now: nat, owner: Owner, userAgent: Option<string>)
    ensures StoredOwner(Payload(now, Metadata(owner, userAgent))) == Some(Texts(owner))
  {
    var m := Metadata(owner, userAgent);
    var before := Payload(now, m[..3][..2]);
    assert m[..3][..2] == m[..2];
    assert Payload(now, m[..3]) == before[API_KEY_ID := Texts(owner).0];
    assert Payload(now, m) == before[API_KEY_ID := Texts(owner).0][USER_ID := Texts(owner).1];
    assert Texts(owner).0 != "" && Texts(owner).1 != "";
  }

  /** Beside its owner a new session persists its times, its transport and what client
      opened it, and nothing else. */
  lemma PayloadDescribesSession(now: nat, owner: Owner, userAgent: Option<string>, k: string)
    ensures var payload := Payload(now, Metadata(owner, userAgent));
      k in payload
      <==> || k == "created_at" || k == "last_seen_at" || k == "transport" || k == "api_key_id" || k == "user_id"
           || (k == "user_agent" && userAgent.Some?)
    ensures var payload := Payload(now, Metadata(owner, userAgent));
      k in payload ==>
        payload[k] == if k == "transport" then "streamable_http"
                      else if k == "user_agent" then userAgent.value
                      else if k == "api_key_id" then Ascii.Decimal(owner.apiKeyId)
                      else if k == "user_id" then Ascii.Decimal(owner.userId)
                      else Stamp(now)
  {
    PayloadHolds(now, Metadata(owner, userAgent), k);
    GivenOfSession(owner, userAgent, k);
  }

  lemma GivenOfSession(owner: Owner, userAgent: Option<string>, k: string)
    ensures Given(Metadata(owner, userAgent), k)
         == if k == "transport" then Some("streamable_http")
            else if k == "user_agent" then userAgent
            else if k == API_KEY_ID then Some(Texts(owner).0)
            else if k == USER_ID then Some(Texts(owner).1) else None
  {
    assert |API_KEY_ID| == 10 && API_KEY_ID[0] == 'a' && |USER_ID| == 7 && |"transport"| == 9;
    assert |"user_agent"| == 10 && "user_agent"[0] == 'u';
    var m := Metadata(owner, userAgent);
    GivenAmongFour(m[0], m[1], m[2], m[3], k);
    assert m == [m[0], m[1], m[2], m[3]];
  }

  /** Four values under different names. */
  lemma GivenAmongFour(a: (string, Option<string>), b: (string, Option<string>), c: (string, Option<string>),
                       d: (string, Option<string>), k: string)
    requires a.0 != b.0 && a.0 != c.0 && a.0 != d.0 && b.0 != c.0 && b.0 != d.0 && c.0 != d.0
    ensures Given([a, b, c, d], k)
         == if k == a.0 then a.1 else if k == b.0 then b.1 else if k == c.0 then c.1
            else if k == d.0 then d.1 else None
  {
    GivenAppend([], a, k);
    GivenAppend([a], b, k);
    GivenAppend([a, b], c, k);
    GivenAppend([a, b, c], d, k);
    assert [] + [a] == [a] && [a] + [b] == [a, b] && [a, b] + [c] == [a, b, c] && [a, b, c] + [d] == [a, b, c, d];
  }

  /** A refresh never makes an owner, nor changes one. */
  lemma RefreshKeepsOwner(entries: Entries, id: string, now: nat, at: int, ttl: int)
    ensures var fields := Refreshed(entries, id, now, at, ttl)[id].fields;
      StoredOwner(fields) == StoredOwner(Live(entries, id, at).GetOr(map[]))
  {
    var fields := Live(entries, id, at).GetOr(map[]);
    assert |API_KEY_ID| != |LAST_SEEN_AT| && |USER_ID| != |LAST_SEEN_AT|;
  }

  /** Different keys have different texts. */
  lemma TextsAreInjective(a: Owner, b: Owner)
    ensures Texts(a) == Texts(b) <==> a == b
  {
    Ascii.IntOfDecimal(a.apiKeyId);
    Ascii.IntOfDecimal(b.apiKeyId);
    Ascii.IntOfDecimal(a.userId);
    Ascii.IntOfDecimal(b.userId);
  }

  // -------------------------------------------------------------------------
  // The two critical sections
  // -------------------------------------------------------------------------

  /** Where a request goes from the in-memory check. */
  datatype Route = Handle(transport: Transport) | Refuse | Open | LookUp(id: string)

  function Routed(m: Maps, header: Option<string>, requestor: Option<string>): Route {
    if header.None? then Open
    else if header.value !in m.instances then LookUp(header.value)
    else if requestor.Some? && header.value in m.owners && m.owners[header.value] == requestor.value
    then Handle(m.instances[header.value])
    else Refuse
  }

  /** What the locked section does: `Known` when another request has just started the
      session, `Full` when `max_sessions` are open. */
  datatype StartOutcome = Known(transport: Transport) | Full | Started(transport: Transport)

  function StartOf(m: Maps, maxSessions: Option<nat>, sessionId: Option<string>, uuid: string,
                   serial: nat): StartOutcome {
    if sessionId.Some? && sessionId.value in m.instances then Known(m.instances[sessionId.value])
    else if maxSessions.Some? && |m.instances| >= maxSessions.value then Full
    else
      var id := if sessionId.Some? && sessionId.value != "" then sessionId.value else uuid;
      Started(Transport(serial, id, sessionId.Some?))
  }

  function Adopted(m: Maps, t: Transport, requestor: Option<string>): Maps {
    Maps(m.instances[t.id := t], if requestor.Some? then m.owners[t.id := requestor.value] else m.owners)
  }

  /** The SDK's discard: only while the id still maps to that transport. */
  function Discarded(m: Maps, t: Transport): Maps {
    if t.id in m.instances && m.instances[t.id] == t then Maps(m.instances - {t.id}, m.owners - {t.id}) else m
  }

  class SessionManager {
    const maxSessions: Option<nat>
    var serverInstances: map<string, Transport>
    var sessionOwners: map<string, string>

    ghost function View(): Maps
      reads this
    {
      Maps(serverInstances, sessionOwners)
    }

    constructor (maxSessions: Option<nat>)
      ensures this.maxSessions == maxSessions && View() == Maps(map[], map[])
    {
      this.maxSessions := maxSessions;
      serverInstances, sessionOwners := map[], map[];
    }

    /** The in-memory check of `_handle_stateful_request`. */
    method RouteRequest(header: Option<string>, requestor: Option<string>) returns (route: Route)
      ensures route == Routed(View(), header, requestor)
    {
      if header.Some? && header.value in serverInstances {
        var transport := serverInstances[header.value];
        var owner := if header.value in sessionOwners then Some(sessionOwners[header.value]) else None;
        if requestor.None? || requestor != owner { return Refuse; }
        return Handle(transport);
      }
      if header.None? { return Open; }
      route := LookUp(header.value);
    }

    /** The locked section of `_start_session_transport`, up to the start of the server
        task. */
    method StartTransport(sessionId: Option<string>, requestor: Option<string>, uuid: string, serial: nat)
      returns (outcome: StartOutcome)
      modifies this
      ensures outcome == StartOf(old(View()), maxSessions, sessionId, uuid, serial)
      ensures View() == if outcome.Started? then Adopted(old(View()), outcome.transport, requestor) else old(View())
    {
      if sessionId.Some? && sessionId.value in serverInstances { return Known(serverInstances[sessionId.value]); }
      if maxSessions.Some? && |serverInstances| >= maxSessions.value { return Full; }
      var newSessionId := if sessionId.Some? && sessionId.value != "" then sessionId.value else uuid;
      var transport := Transport(serial, newSessionId, sessionId.Some?);
      serverInstances := serverInstances[newSessionId := transport];
      if requestor.Some? { sessionOwners := sessionOwners[newSessionId := requestor.value]; }
      outcome := Started(transport);
    }

    method DiscardSession(id: string, transport: Transport)
      requires transport.id == id
      modifies this
      ensures View() == Discarded(old(View()), transport)
    {
      if id in serverInstances && serverInstances[id] == transport {
        serverInstances := serverInstances - {id};
        sessionOwners := sessionOwners - {id};
      }
    }
  }
}

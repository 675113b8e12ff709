/**
 * The decision logic of the HTTP layer: which routes need an API key, the API
 * key registry, and the gate of the /query handler that combines the SQL
 * intent resolver with the policy decision engine.
 */
module Server {
  import opened Wrappers
  import opened Decimal
  import opened Authz
  import opened SqlIntent

  /** Every route needs an API key, except issuing one. */
  predicate ShouldAuthenticate(path: string, verb: string) {
    !(path == "/api_keys" && verb == "POST")
  }

  /** Only `POST /api_keys` is open; every other pair of path and method is authenticated. */
  lemma OnlyKeyIssuanceIsOpen(path: string, verb: string)
    ensures !ShouldAuthenticate(path, verb) <==> path == "/api_keys" && verb == "POST"
    ensures ShouldAuthenticate("/api_keys", "GET") && ShouldAuthenticate("/query", "POST")
  {
  }

  /**
   * Every route whose handler reads the authenticated user is behind the key
   * check: creating and listing policies, deleting any policy, and queries.
   */
  lemma UserRoutesAuthenticated()
    ensures ShouldAuthenticate("/policies", "POST") && ShouldAuthenticate("/policies", "GET")
    ensures forall id: string :: ShouldAuthenticate("/policies/" + id, "DELETE")
    ensures ShouldAuthenticate("/query", "POST")
  {
  }

  // ---------------------------------------------------------------------------
  // API keys

  /** The `n`-th API key. */
  function ApiKey(n: nat): string {
    Labelled("api_key_", n)
  }

  /** The first `n` API keys, in the order they are issued. */
  ghost function IssuedKeys(n: nat): set<string>
    decreases n
  {
    if n == 0 then {} else IssuedKeys(n - 1) + {ApiKey(n - 1)}
  }

  /** Every counter below `n` names an issued key. */
  lemma {:induction false} IssuedKeysInclude(n: nat)
    ensures forall k: nat :: k < n ==> ApiKey(k) in IssuedKeys(n)
  {
    if n > 0 {
      IssuedKeysInclude(n - 1);
      assert IssuedKeys(n) == IssuedKeys(n - 1) + {ApiKey(n - 1)};
      forall k: nat | k < n
        ensures ApiKey(k) in IssuedKeys(n)
      {
        if k < n - 1 {
          assert ApiKey(k) in IssuedKeys(n - 1);
        }
      }
    }
  }

  /** Every issued key is named by a counter below `n`. */
  lemma {:induction false} IssuedKeysOnly(n: nat)
    ensures forall x :: x in IssuedKeys(n) ==> exists k: nat :: k < n && x == ApiKey(k)
  {
    if n > 0 {
      IssuedKeysOnly(n - 1);
      forall x | x in IssuedKeys(n)
        ensures exists k: nat :: k < n && x == ApiKey(k)
      {
        if x == ApiKey(n - 1) {
          assert n - 1 < n;
        } else {
          assert x in IssuedKeys(n - 1);
          var k: nat :| k < n - 1 && x == ApiKey(k);
          assert k < n;
        }
      }
    }
  }

  /** The issued keys are exactly the keys of the counters below `n`. */
  lemma IssuedKeysMembers(n: nat)
    ensures forall x :: x in IssuedKeys(n) <==> exists k: nat :: k < n && x == ApiKey(k)
  {
    IssuedKeysInclude(n);
    IssuedKeysOnly(n);
  }

  /** A key whose counter is not below `n` has not been issued among the first `n`. */
  lemma {:induction false} LaterKeyNotIssued(m: nat, n: nat)
    requires m >= n
    ensures ApiKey(m) !in IssuedKeys(n)
  {
    if n > 0 {
      LaterKeyNotIssued(m, n - 1);
      if ApiKey(m) == ApiKey(n - 1) {
        LabelledInjective("api_key_", m, n - 1);
      }
    }
  }

  /** Issued keys are pairwise distinct: `n` issuances give `n` different keys. */
  lemma {:induction false} IssuedKeysCount(n: nat)
    ensures |IssuedKeys(n)| == n
  {
    if n > 0 {
      IssuedKeysCount(n - 1);
      LaterKeyNotIssued(n - 1, n - 1);
    }
  }

  /** The key registry: the set of issued keys and the counter that names the next one. */
  class ApiKeyStore {
    var apiKeys: set<string>
    var apiKeyCounter: nat

    ghost predicate Valid()
      reads this
    {
      apiKeys == IssuedKeys(apiKeyCounter)
    }

    constructor ()
      ensures Valid()
      ensures apiKeys == {} && apiKeyCounter == 0
    {
      apiKeys := {};
      apiKeyCounter := 0;
    }

    /**
     * Issues `api_key_<counter>`: adds it to the set and advances the counter.
     * The key is new, and every key issued before stays valid.
     */
    method CreateApiKey() returns (newApiKey: string)
      requires Valid()
      modifies this
      ensures Valid()
      ensures newApiKey == ApiKey(old(apiKeyCounter))
      ensures newApiKey !in old(apiKeys)
      ensures apiKeys == old(apiKeys) + {newApiKey}
      ensures apiKeyCounter == old(apiKeyCounter) + 1
    {
      newApiKey := ApiKey(apiKeyCounter);
      LaterKeyNotIssued(apiKeyCounter, apiKeyCounter);
      apiKeys := apiKeys + {newApiKey};
      apiKeyCounter := apiKeyCounter + 1;
    }

    /** Basic-auth check: the user name must be an issued key; the password is ignored. */
    method ApiKeyAuthorizer(user: string, password: string) returns (ok: bool)
      requires Valid()
      ensures ok <==> exists k: nat :: k < apiKeyCounter && user == ApiKey(k)
      ensures ok <==> user in apiKeys
    {
      IssuedKeysMembers(apiKeyCounter);
      ok := user in apiKeys;
    }
  }

  /** Two issuances on a fresh registry give `api_key_0` and `api_key_1`, both accepted. */
  method IssueTwoKeys() returns (first: string, second: string, firstOk: bool, secondOk: bool)
    ensures first == "api_key_0" && second == "api_key_1"
    ensures firstOk && secondOk
  {
    var store := new ApiKeyStore();
    first := store.CreateApiKey();
    second := store.CreateApiKey();
    firstOk := store.ApiKeyAuthorizer(first, "");
    secondOk := store.ApiKeyAuthorizer(second, "");
  }

  // ---------------------------------------------------------------------------
  // The /query handler

  /** What the /query handler answers. `Execute` hands the statement to the database. */
  datatype QueryResponse =
    | MissingQuery               // no query text: a 200 reply carrying an error message
    | Execute                    // the statement runs
    | Forbidden                  // 403: the authorizer said no
    | ServerError(error: ResolveError)  // 500: parsing or resolution threw

  /**
   * The request the handler hands the authorizer: the classification's action
   * (undefined when the statement kind is unknown) and the table (undefined
   * when there is none).
   */
  function RequestFor(principal: string, ta: TableAndAction): (req: AuthzRequest)
    ensures req.principal == principal && req.resource == ta.table
    ensures ta.action.Some? && ta.action.value.Act? ==> req.action == Some(ta.action.value.action)
    ensures ta.action.None? ==> req.action == None
  {
    var action := if ta.action.Some? && ta.action.value.Act? then Some(ta.action.value.action) else None;
    AuthzRequest(principal, action, ta.table)
  }

  /**
   * The part of the handler before the decision: a missing or empty query is
   * answered at once, a parser or resolver failure becomes a 500.
   */
  function Prepare(query: Option<string>, parsed: Option<Parsed>): (r: Result<TableAndAction, QueryResponse>)
    ensures (query == None || query == Some("")) ==> r == Failure(MissingQuery)
    ensures query.Some? && query.value != "" && parsed.None? ==> r == Failure(ServerError(ParseFailure))
    ensures query.Some? && query.value != "" && parsed.Some? ==>
      (r.Success? <==> TableAndActionFromQuery(parsed.value).Success?)
    ensures query.Some? && query.value != "" && parsed.Some? && TableAndActionFromQuery(parsed.value).Failure? ==>
      r == Failure(ServerError(TableAndActionFromQuery(parsed.value).error))
    ensures r.Success? ==>
      (query.Some? && query.value != "" && parsed.Some? && TableAndActionFromQuery(parsed.value) == Success(r.value))
    ensures r.Failure? ==> r.error != Execute && r.error != Forbidden
  {
    if query.None? || query.value == "" then Failure(MissingQuery)
    else if parsed.None? then Failure(ServerError(ParseFailure))
    else match TableAndActionFromQuery(parsed.value)
      case Failure(e) => Failure(ServerError(e))
      case Success(ta) => Success(ta)
  }

  /**
   * The decision as the handler writes it: a bypass executes without asking
   * the authorizer; anything else, including an undefined classification,
   * executes exactly when the authorizer agrees.
   */
  function Decide(ta: TableAndAction, principal: string, store: PolicyMap): (r: QueryResponse)
    ensures ta.action == Some(Bypass) ==> r == Execute
    ensures ta.action != Some(Bypass) ==> (r == Execute <==> Authorizes(store, RequestFor(principal, ta)))
    ensures r == Execute || r == Forbidden
  {
    if ta.action == Some(Bypass) then Execute
    else if Authorizes(store, RequestFor(principal, ta)) then Execute
    else Forbidden
  }

  /**
   * The /query handler as written: `parsed` is the SQL parser's output for
   * the query text (`None` when the parser throws) and `store` the policy
   * store's contents.
   */
  function HandleQueryAsWritten(query: Option<string>, parsed: Option<Parsed>, principal: string, store: PolicyMap)
    : (r: QueryResponse)
    ensures Prepare(query, parsed).Failure? ==> r == Prepare(query, parsed).error
    ensures Prepare(query, parsed).Success? && Prepare(query, parsed).value.action == Some(Bypass) ==> r == Execute
    ensures Prepare(query, parsed).Success? && Prepare(query, parsed).value.action != Some(Bypass) ==>
      (r == Execute <==> Authorizes(store, RequestFor(principal, Prepare(query, parsed).value)))
    ensures Prepare(query, parsed).Success? ==> r == Execute || r == Forbidden
    ensures r == Execute ==> Prepare(query, parsed).Success?
  {
    match Prepare(query, parsed)
    case Failure(response) => response
    case Success(ta) => Decide(ta, principal, store)
  }

  /**
   * As written, a statement whose kind the resolver does not know reaches the
   * authorizer with an undefined action, and a matching allow policy with an
   * empty action list lets it execute.
   */
  lemma UnknownKindExecutesAsWritten(kind: string, principal: string, wildcard: Policy)
    requires kind !in KnownKinds
    requires wildcard.principal == principal && wildcard.actions == [] && AnyResource(wildcard)
    requires wildcard.effect == Allow
    ensures HandleQueryAsWritten(Some("q"), Some(Parsed(Single(kind), [])), principal, map[principal := [wildcard]])
      == Execute
  {
    var ta := TableAndAction(None, None);
    assert TableAndActionFromQuery(Parsed(Single(kind), [])) == Success(ta);
    assert AnyMatch([wildcard], RequestFor(principal, ta), Allow) by {
      assert wildcard in [wildcard];
    }
  }

  /**
   * The /query handler with the unknown-kind case closed: a statement that
   * classifies as undefined is rejected before the authorizer is consulted.
   */
  function HandleQuery(query: Option<string>, parsed: Option<Parsed>, principal: string, store: PolicyMap)
    : (r: QueryResponse)
    ensures Prepare(query, parsed).Success? && Prepare(query, parsed).value.action.None? ==>
      r == ServerError(UnknownStatementKind)
    ensures r == Execute ==> Prepare(query, parsed).Success? && Prepare(query, parsed).value.action.Some?
  {
    match Prepare(query, parsed)
    case Failure(response) => response
    case Success(ta) =>
      if ta.action.None? then ServerError(UnknownStatementKind) else Decide(ta, principal, store)
  }

  /**
   * A query executes only when its statement is a bypass, or has a known
   * action that the store authorizes on the statement's table; a statement of
   * unknown kind never executes.
   */
  lemma HandleQueryExecutesOnlyWhenAllowed(
    query: Option<string>, parsed: Option<Parsed>, principal: string, store: PolicyMap)
    requires HandleQuery(query, parsed, principal, store) == Execute
    ensures parsed.Some? && TableAndActionFromQuery(parsed.value).Success?
    ensures var ta := TableAndActionFromQuery(parsed.value).value;
      ta.action == Some(Bypass) ||
      (ta.action.Some? && ta.action.value.Act? &&
       Authorizes(store, AuthzRequest(principal, Some(ta.action.value.action), ta.table)))
  {
    var ta := Prepare(query, parsed).value;
    assert ta.action.Some?;
  }

  /**
   * A single statement that names more than one table is a 500 for the
   * multiple tables, in the written handler and the corrected one alike.
   */
  lemma MultipleTablesRejected(query: string, kind: string, tables: seq<string>, principal: string, store: PolicyMap)
    requires query != "" && |tables| > 1
    ensures HandleQueryAsWritten(Some(query), Some(Parsed(Single(kind), tables)), principal, store)
      == ServerError(MultipleTables)
    ensures HandleQuery(Some(query), Some(Parsed(Single(kind), tables)), principal, store)
      == ServerError(MultipleTables)
  {
  }

  /**
   * The corrected handler differs from the written one only on statements of
   * unknown kind: everywhere else the two give the same answer.
   */
  lemma HandleQueryAgreesAsWritten(
    query: Option<string>, parsed: Option<Parsed>, principal: string, store: PolicyMap)
    ensures !(Prepare(query, parsed).Success? && Prepare(query, parsed).value.action.None?) ==>
      HandleQuery(query, parsed, principal, store) == HandleQueryAsWritten(query, parsed, principal, store)
    ensures Prepare(query, parsed).Success? && Prepare(query, parsed).value.action.None? ==>
      HandleQuery(query, parsed, principal, store) == ServerError(UnknownStatementKind)
  {
  }

  /** A bypass executes whatever the store holds: the authorizer is not consulted. */
  lemma BypassIgnoresStore(
    query: Option<string>, parsed: Option<Parsed>, principal: string, store: PolicyMap)
    requires query.Some? && query.value != "" && parsed.Some?
    requires TableAndActionFromQuery(parsed.value).Success?
    requires TableAndActionFromQuery(parsed.value).value.action == Some(Bypass)
    ensures HandleQueryAsWritten(query, parsed, principal, store) == Execute
    ensures HandleQuery(query, parsed, principal, store) == Execute
  {
  }

  /**
   * For a statement with a known action, the gate answers exactly as the
   * authorizer does: executed when authorized, 403 when not.
   */
  lemma KnownActionFollowsAuthorizer(
    query: Option<string>, parsed: Option<Parsed>, principal: string, store: PolicyMap, a: Action)
    requires query.Some? && query.value != "" && parsed.Some?
    requires TableAndActionFromQuery(parsed.value).Success?
    requires TableAndActionFromQuery(parsed.value).value.action == Some(Act(a))
    ensures var req := AuthzRequest(principal, Some(a), TableAndActionFromQuery(parsed.value).value.table);
      HandleQueryAsWritten(query, parsed, principal, store) == (if Authorizes(store, req) then Execute else Forbidden)
    ensures var req := AuthzRequest(principal, Some(a), TableAndActionFromQuery(parsed.value).value.table);
      HandleQuery(query, parsed, principal, store) == (if Authorizes(store, req) then Execute else Forbidden)
  {
  }

  /** Under the corrected gate, an unknown statement kind is a 500, whatever the store allows. */
  lemma UnknownKindRejected(
    query: Option<string>, parsed: Option<Parsed>, principal: string, store: PolicyMap)
    requires query.Some? && query.value != "" && parsed.Some?
    requires |Statements(parsed.value.ast)| == 1 && Statements(parsed.value.ast)[0] !in KnownKinds
    requires ResolveTable(parsed.value.tableList).Success?
    ensures HandleQuery(query, parsed, principal, store) == ServerError(UnknownStatementKind)
  {
    UnknownKindNeverBypass(parsed.value.ast);
  }
}

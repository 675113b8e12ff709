# sqlite-authz: a verified model of the authorization path

sqlite-authz is an HTTP service that runs SQL statements against an in-memory
SQLite database, gated by per-principal allow/deny policies. This project models
the two parts of it that carry the logic, and proves properties about them:

- **The policy decision engine** (`PolicyAuthorizer`): a store that maps each
  principal to an ordered list of policies, and `authorized`, which scans the
  requesting principal's list with deny-overrides semantics. A policy matches a
  request when its own principal equals the request's, its action list is empty
  or lists the requested action, and its resource is absent, empty or equal to
  the requested one. Modelled in `authz.dfy` as the class
  `Authz.PolicyAuthorizer`. Its `policies` map and id counter are updated in
  place. The scan is a loop proved against the order-free specification
  `Permits`: some allow matches and no deny matches.
- **The SQL intent resolver** (`resolveTable`, `resolveActionOrBypass`): from the
  SQL parser's output to an action-or-bypass classification and a single table
  name. It is modelled in `sql_intent.dfy`, together with the `::` splitting of
  the parser's `"<verb>::<schema>::<table>"` table strings.
- **The request-level decisions** in `server.dfy`:
  - which routes need an API key (`shouldAuthenticate`);
  - the API-key registry (a set and a counter, as the class `Server.ApiKeyStore`);
  - the gate of the `/query` handler. It executes a bypass statement without
    asking the authorizer. Any other statement executes only when `authorized`
    says yes, and is refused with 403 otherwise.

`decimal.dfy` renders counters in decimal, as JavaScript's template literals do.
Generated identifiers (`policy_<n>`, `api_key_<n>`) are built from it, and the
proofs that they are pairwise distinct rest on its injectivity. `wrappers.dfy`
holds `Option` (whose `None` stands for JavaScript's `undefined`) and `Result`
(for thrown errors).

The SQL parser is an input: the model takes its output, the statement kinds of
the AST and the `tableList` strings, as a `Parsed` value, and a parser that throws
as `None`. The database is not modelled: `Execute` means the statement is handed
to it.

Where the code alone does not settle the behaviour, or contradicts its own tests and callers:

- An unrecognised statement kind yields no classification (`undefined`), not an
  error. This is `SqlIntent.Classify`, and `Server.HandleQueryAsWritten` passes it
  on to the authorizer. The fail-closed behaviour that the function's declared
  return type implies is `Server.HandleQuery`; see Findings.
- An empty AST array is not handled explicitly. In the code, reading the
  kind of the missing statement throws, so it is an error here (`NoStatement`).
- `addPolicy` as written cannot do what its test and its caller expect of it.
  The class follows the test: create the list if absent, append, allocate
  `policy_<n>`, return the stored record. The code as written is kept as
  `Authz.AddPolicyAsWritten`; see Findings.
- `listPolicies` and `deletePolicy` are called by the HTTP layer
  (src/index.ts:140, src/index.ts:144), but `PolicyAuthorizer` in
  src/policyAuthorizer.ts defines neither. The model's `ListPolicies` and
  `DeletePolicy` take their contracts from those callers: list returns the
  principal's records or nothing, and delete reports whether it found and
  removed the record.

## Model

| member | source | states |
|---|---|---|
| `Decimal.NatToString` | src/index.ts:67 | The decimal text of a counter is non-empty, all digits, and ends in the digit of `n % 10` |
| `Decimal.NatToStringInjective` | src/index.ts:67 | Different counters render as different texts |
| `Decimal.Labelled` | src/index.ts:67 | An identifier is its prefix followed by decimal digits only |
| `Decimal.LabelledInjective` | src/index.ts:67 | Under one prefix, the identifier determines the counter |
| `Authz.PolicyIdInjective` | __tests__/policyAuthorizer.test.ts:26 | Policy ids `policy_<n>` of different counters differ |
| `Authz.Matches` | src/policyAuthorizer.ts:60-75 | The match predicate: same principal field, an empty or listing action list, and an absent, empty or equal resource (its properties are the lemmas below) |
| `Authz.WildcardActions` | src/policyAuthorizer.ts:70-71 | With an empty action list, whether a policy matches does not depend on the requested action, even an undefined one |
| `Authz.ListedActionsOnly` | src/policyAuthorizer.ts:70-71 | A policy with a non-empty action list matches only a defined action it lists |
| `Authz.WildcardResource` | src/policyAuthorizer.ts:72-73 | With an absent or empty resource, whether a policy matches does not depend on the requested resource, even an absent one |
| `Authz.ExactResource` | src/policyAuthorizer.ts:72-73 | A policy with a non-empty resource matches only that exact resource; an absent requested resource never matches it |
| `Authz.PrincipalFieldDecides` | src/policyAuthorizer.ts:67 | A policy whose own principal field differs from the request's never matches, whatever key it is stored under |
| `Authz.DefaultDeny` | src/policyAuthorizer.ts:29-31 | A principal with no entry, or an empty list, is never authorized |
| `Authz.DenyOverrides` | src/policyAuthorizer.ts:48-49 | One matching deny anywhere in the list vetoes the request, whatever allows also match |
| `Authz.NoMatchRefused` | src/policyAuthorizer.ts:40-57 | When no policy of the list matches the request, the request is refused (the scan ends with its initial false) |
| `Authz.PermitsIgnoresOrder` | src/policyAuthorizer.ts:40-57 | The decision depends only on which policies are present, not on their order or repetition |
| `Authz.PermitsIgnoresPermutation` | src/policyAuthorizer.ts:40-57 | Any permutation of a principal's list gives the same decision |
| `Authz.PermitsAppend` | src/policyAuthorizer.ts:40-57 | Appending a policy: a non-matching one changes nothing, a matching deny forces false, a matching allow gives true unless a deny already matches |
| `Authz.IndexOfId` | src/index.ts:144 | The position of the first record with a given id, or none exactly when no record has it |
| `Authz.RemoveId` | src/index.ts:143-154 | A list without the record of the given id is the list unchanged, or one record shorter when the id is present |
| `Authz.RemoveIdCorrect` | src/index.ts:143-153 | Deleting by id removes exactly one record when one exists, keeps all others, keeps ids unique, and leaves no record with that id |
| `Authz.NextIdIsFresh` | src/policyAuthorizer.ts:24-26 | Under the store invariant, the next id to allocate is held by no stored record |
| `Authz.AppendKeepsInvariant` | src/policyAuthorizer.ts:24-26 | Appending a freshly allocated policy keeps every stored id allocated and unique, across principals |
| `Authz.ShrinkKeepsInvariant` | src/index.ts:144 | Replacing a principal's list by a duplicate-free subset of it keeps the store invariant |
| `Authz.RemoveKeepsInvariant` | src/index.ts:143-154 | Deleting a principal's record by id keeps every stored id allocated and unique, across principals |
| `Authz.PolicyAuthorizer.constructor` | src/policyAuthorizer.ts:20-22 | A new store is empty and its id counter is 0 |
| `Authz.PolicyAuthorizer.AddPolicy` | src/policyAuthorizer.ts:24-26 | Returns the new record with id `policy_<counter>` and the body's fields; appends it to the principal's list (created if absent); leaves other principals unchanged; advances the counter; the new id is held by no earlier record |
| `Authz.PolicyAuthorizer.Authorized` | src/policyAuthorizer.ts:28-58 | The insertion-order scan with early return on deny returns true exactly when the principal has an entry in which some allow matches and no deny matches; it changes nothing |
| `Authz.PolicyAuthorizer.ListPolicies` | src/index.ts:139-141 | Returns the principal's records in insertion order, or an empty list when it has none (inferred) |
| `Authz.PolicyAuthorizer.DeletePolicy` | src/index.ts:143-154 | Returns true exactly when the principal has a record with that id; then that record is removed and nothing else changes; otherwise nothing changes (inferred) |
| `Authz.AddPolicyAsWritten` | src/policyAuthorizer.ts:24-26 | As written: throws when the principal has no entry; otherwise appends the record to that principal's list, adds no key, and leaves every other principal's list unchanged |
| `Authz.ReplayAsWrittenFromEmptyFaults` | src/policyAuthorizer.ts:24-26 | As written, any sequence of addPolicy calls on a fresh store throws before storing anything |
| `Authz.AddPolicyScenario` | __tests__/policyAuthorizer.test.ts:15-34 | On a fresh store the first policy gets id `policy_0`, is stored under its principal, and authorizes the matching request |
| `Authz.DenyOverridesScenario` | __tests__/policyAuthorizer.test.ts:84-109 | A matching deny added before a matching allow: the request is refused |
| `Authz.UnlistedActionScenario` | __tests__/policyAuthorizer.test.ts:111-128 | An allow for `select` does not authorize `update` |
| `SqlIntent.Split` | src/index.ts:103 | `split('::')` scanning left to right: always at least one part (its round trip is `JoinSplit`) |
| `SqlIntent.JoinSplit` | src/index.ts:103 | Splitting on `::` loses nothing: joining the parts with `::` gives the input back |
| `SqlIntent.SplitWithoutSep` | src/index.ts:103 | A string without `::` splits into itself alone |
| `SqlIntent.SplitColonFreeHead` | src/index.ts:103 | A colon-free first segment is cut off at the first `::` |
| `SqlIntent.ExtractTable` | src/index.ts:103 | The third `::` part of an entry, or none when there are fewer than three (its properties are the three lemmas below) |
| `SqlIntent.ExtractTableOfEntry` | src/index.ts:101-103 | An entry `<verb>::<schema>::<table>` with colon-free verb and schema yields exactly its table |
| `SqlIntent.ExtractTableShort` | src/index.ts:103 | An entry with no `::` has fewer than three segments and yields no table |
| `SqlIntent.ExtractTableExample` | src/index.ts:101-103 | `insert::null::my_table1` yields `my_table1` |
| `SqlIntent.ResolveTable` | src/index.ts:94-106 | More than one entry is exactly the multiple-tables error; no entry gives no table; one entry gives its third `::` segment, or none when it has fewer |
| `SqlIntent.Classify` | src/index.ts:114-130 | use/create/alter/drop are exactly the bypass kinds; select, insert or replace, delete, update map to their actions; exactly the other kinds give no classification |
| `SqlIntent.Statements` | src/index.ts:109 | A single statement counts as a one-element array |
| `SqlIntent.ResolveActionOrBypass` | src/index.ts:108-131 | More than one statement is exactly the multiple-statements error; an empty array fails; exactly one statement succeeds with its kind's classification |
| `SqlIntent.UnknownKindNeverBypass` | src/index.ts:114-131 | A single statement of unknown kind resolves to no classification, never to bypass |
| `SqlIntent.TableAndActionFromQuery` | src/index.ts:82-92 | Succeeds exactly when both resolutions succeed; a classification error wins over a table error; a classified statement with more than one table fails with the multiple-tables error; the result carries both resolved parts |
| `Server.ShouldAuthenticate` | src/index.ts:52-54 | Whether a route needs an API key (its properties are the two lemmas below) |
| `Server.OnlyKeyIssuanceIsOpen` | src/index.ts:52-54 | Authentication is skipped exactly for `POST /api_keys` |
| `Server.UserRoutesAuthenticated` | src/index.ts:133-156 | Every route whose handler reads the authenticated user needs a key: `POST /policies`, `GET /policies`, `DELETE /policies/<id>` for every id, `POST /query` |
| `Server.IssuedKeysMembers` | src/index.ts:64-70 | The issued keys are exactly `api_key_<k>` for the counters `k` issued so far |
| `Server.IssuedKeysInclude` | src/index.ts:64-70 | Every counter issued so far names a key in the set |
| `Server.IssuedKeysOnly` | src/index.ts:64-70 | Every key in the set is `api_key_<k>` for a counter issued so far |
| `Server.LaterKeyNotIssued` | src/index.ts:64-70 | The key of a counter not yet reached has not been issued, so each new key is fresh |
| `Server.IssuedKeysCount` | src/index.ts:64-70 | After `n` issuances there are exactly `n` distinct keys |
| `Server.ApiKeyStore.constructor` | src/index.ts:64-65 | The registry starts with no keys and counter 0 |
| `Server.ApiKeyStore.CreateApiKey` | src/index.ts:66-75 | Issues `api_key_<counter>`, a key not issued before; adds it to the set; advances the counter by one; earlier keys stay |
| `Server.ApiKeyStore.ApiKeyAuthorizer` | src/index.ts:60-62 | A user name is accepted exactly when it is one of the keys issued so far |
| `Server.IssueTwoKeys` | src/index.ts:60-75 | Two issuances on a fresh registry give `api_key_0` and `api_key_1`, and both are then accepted |
| `Server.RequestFor` | src/index.ts:171-175 | The authorizer is asked about the handler's principal, the resolved table, and the classified action, undefined for an unknown kind |
| `Server.Prepare` | src/index.ts:156-191 | A missing or empty query is answered at once; a non-empty query whose parse throws is a 500 for the parse; a parsed query goes on exactly when resolution succeeds, carrying the resolved statement, and a resolution error becomes a 500 with that error |
| `Server.Decide` | src/index.ts:165-185 | A bypass executes; anything else executes exactly when the authorizer agrees and is refused with 403 otherwise |
| `Server.HandleQueryAsWritten` | src/index.ts:156-191 | As written: a failed preparation gives its own answer; a resolved bypass executes; any other resolved statement, an undefined classification included, executes exactly when the authorizer agrees and is refused with 403 otherwise |
| `Server.UnknownKindExecutesAsWritten` | src/index.ts:114-131 | As written, a statement of unknown kind executes for a principal holding a matching allow policy with an empty action list |
| `Server.MultipleTablesRejected` | src/index.ts:94-97 | A single statement naming more than one table is a 500 for the multiple tables, in the written handler and the corrected one alike |
| `Server.HandleQuery` | src/index.ts:156-191 | The corrected handler: a resolved statement of unknown kind is a 500, and nothing executes without a defined classification |
| `Server.HandleQueryAgreesAsWritten` | src/index.ts:156-191 | The corrected handler gives the written handler's answer on every input except a resolved statement of unknown kind, which it rejects with a 500 |
| `Server.HandleQueryExecutesOnlyWhenAllowed` | src/index.ts:165-185 | With unknown kinds rejected, a query executes only as a bypass, or with a known action the store authorizes on the statement's table |
| `Server.BypassIgnoresStore` | src/index.ts:165-169 | A resolved bypass statement executes whatever the policy store holds, in the written handler and the corrected one alike |
| `Server.KnownActionFollowsAuthorizer` | src/index.ts:170-185 | For a known action, the written handler and the corrected one both execute the query if the store authorizes it and refuse it with 403 otherwise |
| `Server.UnknownKindRejected` | src/index.ts:114-131 | With unknown kinds rejected, such a statement is a 500 whatever the store allows |

## Left out

- Express setup, middleware chaining, basic-auth header parsing, the OpenAPI request and response validator, and the error-formatting middleware: HTTP plumbing.
- The SQL parser is foreign code. The model takes its output (statement kinds, `tableList` strings), or its failure, as an input.
- SQLite execution and its callback, so the 400 and 200 replies after execution are not modelled. `Execute` stands for handing the statement to the database.
- Logging, and starting the server.
- `Authz.PolicyAuthorizer.Authorized`: the store is a plain JavaScript object, so for a principal named after an `Object.prototype` member (`constructor`, `toString`, `__proto__`, `hasOwnProperty`) the lookup finds an inherited, non-iterable value and the scan throws a `TypeError`. The model has no inherited entries and answers false. The server cannot reach this, because its principals are always issued `api_key_<n>` keys.
- Concurrency: every call runs to completion before the next one starts, so the counters need no synchronization.
- `Authz.PolicyAuthorizer.AddPolicy`: the body's `principal` field is always a string. A body without one (`undefined`, which would never match) is not modelled.
- `Server.ApiKeyStore.CreateApiKey`: the counter is an unbounded integer, so JavaScript number precision beyond 2^53 is not modelled.
- `Authz.PolicyAuthorizer.DeletePolicy`: keeps a principal's key when its list becomes empty. That behaves like dropping the key: an empty list authorizes nothing.
- The generated OpenAPI types are not part of this model. `Action` and `Effect` are closed enumerations, and the validator's checks on request bodies are assumed.

## Findings

| source | as written | input that shows it | evidently intended | confidence | as-written member | corrected member |
|---|---|---|---|---|---|---|
| src/policyAuthorizer.ts:24-26 | `addPolicy` pushes onto `this.policies[principal]` without creating it, and returns nothing and allocates no id | a fresh store, then `addPolicy('user1', {...})`, as the first test does: the list is missing and `push` throws | create the list if absent, append, give the record id `policy_<n>` from a store-owned counter, and return it (the test expects `policy_0`, and the `/policies` handler replies with the result) | high, not executed | `Authz.ReplayAsWrittenFromEmptyFaults` | `Authz.PolicyAuthorizer.AddPolicy` |
| src/index.ts:114-131 | an unrecognised statement kind falls through the switch to `undefined`, which the `/query` handler passes to `authorized` as the action; a policy with an empty action list matches it | principal `u` holding `{principal: u, actions: [], effect: allow}` with no resource, and a single statement of a kind outside the switch (for example `show`, if the parser reports that kind) with no table: the statement executes | a statement of unknown kind is rejected, never authorized (the function's declared return type names only the four actions and bypass, not `undefined`) | medium, not executed | `Server.UnknownKindExecutesAsWritten` | `Server.HandleQueryExecutesOnlyWhenAllowed` |

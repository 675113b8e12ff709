/**
 * The policy decision engine: policy records keyed by principal, the match
 * predicate, and deny-overrides evaluation.
 */
module Authz {
  import opened Wrappers
  import opened Decimal

  datatype Action = Select | Insert | Update | Delete

  datatype Effect = Allow | Deny

  /**
   * A stored policy. An empty `actions` list and an absent or empty `resource`
   * are wildcards. `principal` is the policy's own field, which need not equal
   * the key it is stored under.
   */
  datatype Policy = Policy(
    id: string,
    principal: string,
    actions: seq<Action>,
    resource: Option<string>,
    effect: Effect)

  /** The body of a create-policy request: a policy without its id. */
  datatype PolicyRequest = PolicyRequest(
    principal: string,
    actions: seq<Action>,
    resource: Option<string>,
    effect: Effect)

  /**
   * An authorization request. `action` is `None` and `resource` is `None` when
   * the caller passes `undefined` (an unrecognised statement kind, a statement
   * without a table).
   */
  datatype AuthzRequest = AuthzRequest(
    principal: string,
    action: Option<Action>,
    resource: Option<string>)

  type PolicyMap = map<string, seq<Policy>>

  /** The identifier the store gives its `n`-th policy. */
  function PolicyId(n: nat): string {
    Labelled("policy_", n)
  }

  lemma PolicyIdInjective(m: nat, n: nat)
    requires PolicyId(m) == PolicyId(n)
    ensures m == n
  {
    LabelledInjective("policy_", m, n);
  }

  /** The policy is a wildcard on resources: its resource is absent or empty. */
  predicate AnyResource(p: Policy) {
    p.resource == None || p.resource == Some("")
  }

  /** The match condition of one policy against one request. */
  predicate Matches(req: AuthzRequest, p: Policy) {
    var principalMatches := req.principal == p.principal;
    var actionMatches := |p.actions| == 0 || (req.action.Some? && req.action.value in p.actions);
    var resourceMatches := AnyResource(p) || req.resource == p.resource;
    principalMatches && actionMatches && resourceMatches
  }

  /** Some policy in `ps` with effect `e` matches `req`. */
  predicate AnyMatch(ps: seq<Policy>, req: AuthzRequest, e: Effect) {
    exists p :: p in ps && p.effect == e && Matches(req, p)
  }

  /**
   * Deny-overrides, stated without any scan order: some allow matches and no
   * deny matches.
   */
  predicate Permits(ps: seq<Policy>, req: AuthzRequest) {
    AnyMatch(ps, req, Allow) && !AnyMatch(ps, req, Deny)
  }

  /** The decision over a whole store; a principal without an entry is denied. */
  predicate Authorizes(m: PolicyMap, req: AuthzRequest) {
    req.principal in m && Permits(m[req.principal], req)
  }

  /** A principal's list; absence of the key reads as an empty list. */
  function Lookup(m: PolicyMap, principal: string): (ps: seq<Policy>)
    ensures principal !in m ==> ps == []
    ensures principal in m ==> ps == m[principal]
  {
    if principal in m then m[principal] else []
  }

  // ---------------------------------------------------------------------------
  // Properties of the match predicate

  /** A policy with an empty action list matches whatever action is requested. */
  lemma WildcardActions(p: Policy, req: AuthzRequest, other: Option<Action>)
    requires |p.actions| == 0
    ensures Matches(req, p) <==> Matches(req.(action := other), p)
  {
  }

  /** A policy with a non-empty action list matches only the actions it lists. */
  lemma ListedActionsOnly(p: Policy, req: AuthzRequest)
    requires |p.actions| > 0 && Matches(req, p)
    ensures req.action.Some? && req.action.value in p.actions
  {
  }

  /** A wildcard resource matches every requested resource, absent or not. */
  lemma WildcardResource(p: Policy, req: AuthzRequest, other: Option<string>)
    requires AnyResource(p)
    ensures Matches(req, p) <==> Matches(req.(resource := other), p)
  {
  }

  /**
   * A non-empty policy resource needs exact equality; in particular an absent
   * request resource never matches it.
   */
  lemma ExactResource(p: Policy, req: AuthzRequest)
    requires !AnyResource(p) && Matches(req, p)
    ensures req.resource == p.resource && req.resource != None
  {
  }

  /** A policy whose own principal field differs from the request's never matches. */
  lemma PrincipalFieldDecides(p: Policy, req: AuthzRequest)
    requires p.principal != req.principal
    ensures !Matches(req, p)
  {
  }

  // ---------------------------------------------------------------------------
  // Properties of deny-overrides

  /** Default deny: no entry for the principal, or an empty list, denies. */
  lemma DefaultDeny(m: PolicyMap, req: AuthzRequest)
    requires Lookup(m, req.principal) == []
    ensures !Authorizes(m, req)
  {
  }

  /** One matching deny vetoes, whatever else the list holds and in whatever order. */
  lemma DenyOverrides(ps: seq<Policy>, d: Policy, req: AuthzRequest)
    requires d in ps && d.effect == Deny && Matches(req, d)
    ensures !Permits(ps, req)
  {
    assert AnyMatch(ps, req, Deny);
  }

  /** A list none of whose policies matches permits nothing: an unlisted action is refused. */
  lemma NoMatchRefused(ps: seq<Policy>, req: AuthzRequest)
    requires forall p :: p in ps ==> !Matches(req, p)
    ensures !Permits(ps, req)
  {
    assert !AnyMatch(ps, req, Allow);
  }

  /**
   * The decision depends only on which policies are present, not on their
   * order or multiplicity.
   */
  lemma PermitsIgnoresOrder(ps: seq<Policy>, qs: seq<Policy>, req: AuthzRequest)
    requires forall p :: p in ps <==> p in qs
    ensures Permits(ps, req) == Permits(qs, req)
  {
    assert AnyMatch(ps, req, Allow) == AnyMatch(qs, req, Allow);
    assert AnyMatch(ps, req, Deny) == AnyMatch(qs, req, Deny);
  }

  /** In particular any permutation of a list gives the same decision. */
  lemma PermitsIgnoresPermutation(ps: seq<Policy>, qs: seq<Policy>, req: AuthzRequest)
    requires multiset(ps) == multiset(qs)
    ensures Permits(ps, req) == Permits(qs, req)
  {
    forall p
      ensures p in ps <==> p in qs
    {
      assert p in ps <==> p in multiset(ps);
      assert p in qs <==> p in multiset(qs);
    }
    PermitsIgnoresOrder(ps, qs, req);
  }

  /** How appending one policy changes the decision. */
  lemma PermitsAppend(ps: seq<Policy>, p: Policy, req: AuthzRequest)
    ensures Permits(ps + [p], req) ==
      if !Matches(req, p) then Permits(ps, req)
      else if p.effect == Deny then false
      else !AnyMatch(ps, req, Deny)
  {
    forall e: Effect
      ensures AnyMatch(ps + [p], req, e) == (AnyMatch(ps, req, e) || (p.effect == e && Matches(req, p)))
    {
      if AnyMatch(ps + [p], req, e) {
        var q :| q in ps + [p] && q.effect == e && Matches(req, q);
        assert q in ps || q == p;
      }
      if p.effect == e && Matches(req, p) {
        assert p in ps + [p];
      }
      if AnyMatch(ps, req, e) {
        var q :| q in ps && q.effect == e && Matches(req, q);
        assert q in ps + [p];
      }
    }
  }

  // ---------------------------------------------------------------------------
  // Identifiers and deletion (inferred operations)

  /** No two positions of `ps` carry the same id. */
  predicate UniqueIds(ps: seq<Policy>) {
    forall i, j :: 0 <= i < j < |ps| ==> ps[i].id != ps[j].id
  }

  /** The position of the first policy with id `id`, if any. */
  function IndexOfId(ps: seq<Policy>, id: string): (r: Option<nat>)
    ensures r.None? <==> forall p :: p in ps ==> p.id != id
    ensures r.Some? ==> r.value < |ps| && ps[r.value].id == id
    ensures r.Some? ==> forall i :: 0 <= i < r.value ==> ps[i].id != id
  {
    if |ps| == 0 then None
    else if ps[0].id == id then Some(0)
    else match IndexOfId(ps[1..], id)
      case None => (assert forall p :: p in ps ==> p == ps[0] || p in ps[1..]; None)
      case Some(k) => Some(k + 1)
  }

  /** `ps` without its first policy of id `id` (unchanged if there is none). */
  function RemoveId(ps: seq<Policy>, id: string): (qs: seq<Policy>)
    ensures IndexOfId(ps, id).None? ==> qs == ps
    ensures IndexOfId(ps, id).Some? ==> |qs| == |ps| - 1
  {
    match IndexOfId(ps, id)
    case None => ps
    case Some(k) => ps[..k] + ps[k + 1..]
  }

  /** Positions of `ps` with the one at `k` cut out. */
  lemma CutAt(ps: seq<Policy>, k: nat)
    requires k < |ps|
    ensures |ps[..k] + ps[k + 1..]| == |ps| - 1
    ensures forall i :: 0 <= i < k ==> (ps[..k] + ps[k + 1..])[i] == ps[i]
    ensures forall i :: k < i < |ps| ==> (ps[..k] + ps[k + 1..])[i - 1] == ps[i]
    ensures multiset(ps[..k] + ps[k + 1..]) + multiset{ps[k]} == multiset(ps)
  {
    assert ps == ps[..k] + [ps[k]] + ps[k + 1..];
  }

  /** Cutting one position out of a duplicate-free list leaves it duplicate-free. */
  lemma CutKeepsUniqueIds(ps: seq<Policy>, k: nat)
    requires k < |ps| && UniqueIds(ps)
    ensures UniqueIds(ps[..k] + ps[k + 1..])
  {
    var qs := ps[..k] + ps[k + 1..];
    CutAt(ps, k);
    forall i, j | 0 <= i < j < |qs|
      ensures qs[i].id != qs[j].id
    {
      var i' := if i < k then i else i + 1;
      var j' := if j < k then j else j + 1;
      assert qs[i] == ps[i'] && qs[j] == ps[j'];
    }
  }

  /** What remains after cutting position `k` comes from the list and lacks the id at `k`. */
  lemma CutMembersFromList(ps: seq<Policy>, k: nat)
    requires k < |ps| && UniqueIds(ps)
    ensures forall q :: q in ps[..k] + ps[k + 1..] ==> q in ps && q.id != ps[k].id
  {
    var qs := ps[..k] + ps[k + 1..];
    CutAt(ps, k);
    forall q | q in qs
      ensures q in ps && q.id != ps[k].id
    {
      var i :| 0 <= i < |qs| && qs[i] == q;
      if i < k {
        assert ps[i] == q;
      } else {
        assert ps[i + 1] == q;
      }
    }
  }

  /** Every record whose id differs from the one at `k` survives the cut. */
  lemma CutMembersKept(ps: seq<Policy>, k: nat)
    requires k < |ps|
    ensures forall q :: q in ps && q.id != ps[k].id ==> q in ps[..k] + ps[k + 1..]
  {
    var qs := ps[..k] + ps[k + 1..];
    CutAt(ps, k);
    forall q | q in ps && q.id != ps[k].id
      ensures q in qs
    {
      var i :| 0 <= i < |ps| && ps[i] == q;
      if i < k { assert qs[i] == q; } else { assert qs[i - 1] == q; }
    }
  }

  /**
   * Removing by id drops exactly one record when one is present, keeps every
   * other record, and, ids being unique, leaves no record with that id.
   */
  lemma RemoveIdCorrect(ps: seq<Policy>, id: string)
    requires UniqueIds(ps)
    ensures UniqueIds(RemoveId(ps, id))
    ensures forall q :: q in RemoveId(ps, id) ==> q in ps && q.id != id
    ensures forall q :: q in ps && q.id != id ==> q in RemoveId(ps, id)
    ensures IndexOfId(ps, id).Some? ==>
      multiset(RemoveId(ps, id)) + multiset{ps[IndexOfId(ps, id).value]} == multiset(ps)
    ensures IndexOfId(ps, id).None? ==> RemoveId(ps, id) == ps
  {
    match IndexOfId(ps, id)
    case None =>
    case Some(k) =>
      CutAt(ps, k);
      CutKeepsUniqueIds(ps, k);
      CutMembersFromList(ps, k);
      CutMembersKept(ps, k);
  }

  // ---------------------------------------------------------------------------
  // The store

  /** `id` is one of the first `n` identifiers the store allocates. */
  ghost predicate IssuedBelow(id: string, n: nat) {
    exists k: nat :: k < n && id == PolicyId(k)
  }

  /** Every stored id is one of the first `n` allocated. */
  ghost predicate AllIssuedBelow(m: PolicyMap, n: nat) {
    forall u, p :: u in m && p in m[u] ==> IssuedBelow(p.id, n)
  }

  /** No list holds an id twice. */
  predicate ListsUnique(m: PolicyMap) {
    forall u :: u in m ==> UniqueIds(m[u])
  }

  /** No id is held under two principals. */
  predicate DisjointAcross(m: PolicyMap) {
    forall u, v, p, q :: u in m && v in m && u != v && p in m[u] && q in m[v] ==> p.id != q.id
  }

  /**
   * The store's invariant: every stored id was allocated below `nextId`, and
   * no id is stored twice, neither within one list nor across principals.
   */
  ghost predicate StoreInvariant(m: PolicyMap, nextId: nat) {
    AllIssuedBelow(m, nextId) && ListsUnique(m) && DisjointAcross(m)
  }

  /** The next id differs from every id already stored. */
  lemma NextIdIsFresh(m: PolicyMap, nextId: nat)
    requires AllIssuedBelow(m, nextId)
    ensures forall u, q :: u in m && q in m[u] ==> q.id != PolicyId(nextId)
  {
    forall u, q | u in m && q in m[u]
      ensures q.id != PolicyId(nextId)
    {
      assert IssuedBelow(q.id, nextId);
      var k: nat :| k < nextId && q.id == PolicyId(k);
      if q.id == PolicyId(nextId) { PolicyIdInjective(k, nextId); }
    }
  }

  lemma AppendKeepsIssued(m: PolicyMap, nextId: nat, principal: string, p: Policy)
    requires AllIssuedBelow(m, nextId) && p.id == PolicyId(nextId)
    ensures AllIssuedBelow(m[principal := Lookup(m, principal) + [p]], nextId + 1)
  {
    var m' := m[principal := Lookup(m, principal) + [p]];
    forall u, q: Policy | u in m' && q in m'[u]
      ensures IssuedBelow(q.id, nextId + 1)
    {
      if q == p {
        assert q.id == PolicyId(nextId);
      } else {
        assert q in m[u];
        assert IssuedBelow(q.id, nextId);
        var k: nat :| k < nextId && q.id == PolicyId(k);
        assert k < nextId + 1;
      }
    }
  }

  lemma AppendKeepsUnique(m: PolicyMap, principal: string, p: Policy)
    requires ListsUnique(m)
    requires forall u, q :: u in m && q in m[u] ==> q.id != p.id
    ensures ListsUnique(m[principal := Lookup(m, principal) + [p]])
  {
    var ps := Lookup(m, principal);
    forall i, j | 0 <= i < j < |ps + [p]|
      ensures (ps + [p])[i].id != (ps + [p])[j].id
    {
      if j == |ps| {
        assert ps[i] in m[principal];
      } else {
        assert (ps + [p])[i] == ps[i] && (ps + [p])[j] == ps[j];
      }
    }
  }

  lemma AppendKeepsDisjoint(m: PolicyMap, principal: string, p: Policy)
    requires DisjointAcross(m)
    requires forall u, q :: u in m && q in m[u] ==> q.id != p.id
    ensures DisjointAcross(m[principal := Lookup(m, principal) + [p]])
  {
    var ps := Lookup(m, principal);
    var m' := m[principal := ps + [p]];
    forall u, v, q: Policy, r: Policy | u in m' && v in m' && u != v && q in m'[u] && r in m'[v]
      ensures q.id != r.id
    {
      if u == principal {
        assert q in ps || q == p;
        assert r in m[v];
      } else if v == principal {
        assert r in ps || r == p;
        assert q in m[u];
      } else {
        assert q in m[u] && r in m[v];
      }
    }
  }

  /** Appending a freshly allocated policy keeps the invariant, with the counter advanced. */
  lemma AppendKeepsInvariant(m: PolicyMap, nextId: nat, principal: string, p: Policy)
    requires StoreInvariant(m, nextId) && p.id == PolicyId(nextId)
    ensures StoreInvariant(m[principal := Lookup(m, principal) + [p]], nextId + 1)
  {
    NextIdIsFresh(m, nextId);
    AppendKeepsIssued(m, nextId, principal, p);
    AppendKeepsUnique(m, principal, p);
    AppendKeepsDisjoint(m, principal, p);
  }

  /** Replacing one list by a duplicate-free sub-collection of it keeps the invariant. */
  lemma ShrinkKeepsInvariant(m: PolicyMap, nextId: nat, principal: string, qs: seq<Policy>)
    requires StoreInvariant(m, nextId) && principal in m
    requires UniqueIds(qs) && forall q :: q in qs ==> q in m[principal]
    ensures StoreInvariant(m[principal := qs], nextId)
  {
    var m' := m[principal := qs];
    forall u, q: Policy | u in m' && q in m'[u]
      ensures IssuedBelow(q.id, nextId)
    {
      assert q in m[u];
    }
    forall u, v, q: Policy, r: Policy | u in m' && v in m' && u != v && q in m'[u] && r in m'[v]
      ensures q.id != r.id
    {
      assert q in m[u] && r in m[v];
    }
  }

  /** Deleting a principal's record by id keeps the invariant. */
  lemma RemoveKeepsInvariant(m: PolicyMap, nextId: nat, principal: string, id: string)
    requires StoreInvariant(m, nextId) && principal in m
    ensures StoreInvariant(m[principal := RemoveId(m[principal], id)], nextId)
  {
    var ps := m[principal];
    assert UniqueIds(ps);
    RemoveIdCorrect(ps, id);
    ShrinkKeepsInvariant(m, nextId, principal, RemoveId(ps, id));
  }

  /**
   * The policy store and decision engine. Ids are allocated from a counter
   * owned by the store, so that the first policy it creates is `policy_0`.
   */
  class PolicyAuthorizer {
    var policies: PolicyMap
    var nextId: nat

    ghost predicate Valid()
      reads this
    {
      StoreInvariant(policies, nextId)
    }

    constructor ()
      ensures Valid()
      ensures policies == map[] && nextId == 0
    {
      policies := map[];
      nextId := 0;
    }

    /**
     * Creates a policy for `principal`: allocates the next id, appends the
     * record to the principal's list (creating the list if absent) and
     * returns the stored record. Other principals' lists are unchanged, and
     * the new id is not held by any record already stored.
     *
     * The repository's addPolicy (src/policyAuthorizer.ts:24-26) only pushes
     * onto an existing list and returns nothing; this follows what its test
     * and the /policies handler expect of it.
     */
    method AddPolicy(principal: string, body: PolicyRequest) returns (p: Policy)
      requires Valid()
      modifies this
      ensures Valid()
      ensures p == Policy(PolicyId(old(nextId)), body.principal, body.actions, body.resource, body.effect)
      ensures policies == old(policies)[principal := Lookup(old(policies), principal) + [p]]
      ensures nextId == old(nextId) + 1
      ensures forall u, q :: u in old(policies) && q in old(policies)[u] ==> q.id != p.id
    {
      p := Policy(PolicyId(nextId), body.principal, body.actions, body.resource, body.effect);
      NextIdIsFresh(policies, nextId);
      AppendKeepsInvariant(policies, nextId, principal, p);
      policies := policies[principal := Lookup(policies, principal) + [p]];
      nextId := nextId + 1;
    }

    /**
     * Deny-overrides evaluation: a scan in insertion order that returns false
     * on the first matching deny and otherwise reports whether an allow
     * matched. It changes nothing.
     */
    method Authorized(req: AuthzRequest) returns (ok: bool)
      ensures ok == Authorizes(policies, req)
    {
      if req.principal !in policies {
        return false;
      }
      var principalsPolicies := policies[req.principal];
      // `authorized` collects the matched policies in an array it never reads.
      var matchingPolicies: seq<Policy> := [];
      var atLeastOneAllowMatches := false;
      for i := 0 to |principalsPolicies|
        invariant !AnyMatch(principalsPolicies[..i], req, Deny)
        invariant atLeastOneAllowMatches == AnyMatch(principalsPolicies[..i], req, Allow)
      {
        var policy := principalsPolicies[i];
        PermitsAppend(principalsPolicies[..i], policy, req);
        assert principalsPolicies[..i + 1] == principalsPolicies[..i] + [policy];
        if Matches(req, policy) {
          if policy.effect == Deny {
            DenyOverrides(principalsPolicies, policy, req);
            return false;
          } else if policy.effect == Allow {
            atLeastOneAllowMatches := true;
          }
          matchingPolicies := matchingPolicies + [policy];
        }
      }
      assert principalsPolicies[..|principalsPolicies|] == principalsPolicies;
      return atLeastOneAllowMatches;
    }

    /** The principal's policies in insertion order; empty if it has none. Inferred. */
    method ListPolicies(principal: string) returns (ps: seq<Policy>)
      ensures principal in policies ==> ps == policies[principal]
      ensures principal !in policies ==> ps == []
    {
      ps := Lookup(policies, principal);
    }

    /**
     * Removes the principal's policy with id `id`. The result is true exactly
     * when the principal has such a policy; nothing else changes. Inferred.
     */
    method DeletePolicy(principal: string, id: string) returns (deleted: bool)
      requires Valid()
      modifies this
      ensures Valid()
      ensures deleted <==> principal in old(policies) && exists p :: p in old(policies)[principal] && p.id == id
      ensures deleted ==> policies == old(policies)[principal := RemoveId(old(policies)[principal], id)]
      ensures !deleted ==> policies == old(policies)
      ensures nextId == old(nextId)
    {
      if principal !in policies {
        return false;
      }
      var ps := policies[principal];
      var found := IndexOfId(ps, id);
      if found.None? {
        return false;
      }
      assert ps[found.value] in ps;
      RemoveKeepsInvariant(policies, nextId, principal, id);
      policies := policies[principal := RemoveId(ps, id)];
      deleted := true;
    }
  }

  // ---------------------------------------------------------------------------
  // addPolicy as the repository writes it

  /**
   * The repository's addPolicy: push the given record onto the principal's
   * existing list, allocating no id and returning nothing. Pushing onto the
   * list of a principal without an entry throws; that is `None` here.
   */
  function AddPolicyAsWritten(m: PolicyMap, principal: string, policy: Policy): (r: Option<PolicyMap>)
    ensures r.None? <==> principal !in m
    ensures r.Some? ==> r.value.Keys == m.Keys
    ensures r.Some? ==> r.value[principal] == m[principal] + [policy]
    ensures r.Some? ==> forall u :: u in m && u != principal ==> r.value[u] == m[u]
  {
    if principal in m then Some(m[principal := m[principal] + [policy]]) else None
  }

  /** A sequence of addPolicy calls as written, stopping at the first that throws. */
  function ReplayAsWritten(m: PolicyMap, calls: seq<(string, Policy)>): Option<PolicyMap>
  {
    if |calls| == 0 then Some(m)
    else match AddPolicyAsWritten(m, calls[0].0, calls[0].1)
      case None => None
      case Some(m') => ReplayAsWritten(m', calls[1..])
  }

  /**
   * As written, a store that starts empty never gets an entry: any non-empty
   * sequence of calls throws, and nothing is stored before it does.
   */
  lemma ReplayAsWrittenFromEmptyFaults(calls: seq<(string, Policy)>)
    requires |calls| > 0
    ensures ReplayAsWritten(map[], calls) == None
  {
    assert AddPolicyAsWritten(map[], calls[0].0, calls[0].1) == None;
  }

  /**
   * What the repository's test expects of addPolicy on a fresh store: the
   * returned policy has id `policy_0`, is stored under its principal, and then
   * authorizes the matching request.
   */
  method AddPolicyScenario() returns (p: Policy, stored: seq<Policy>, ok: bool)
    ensures p == Policy("policy_0", "user1", [Select], Some("resource1"), Allow)
    ensures p in stored
    ensures ok
  {
    var authorizer := new PolicyAuthorizer();
    p := authorizer.AddPolicy("user1", PolicyRequest("user1", [Select], Some("resource1"), Allow));
    assert PolicyId(0) == "policy_0";
    stored := authorizer.ListPolicies("user1");
    assert stored == [p];
    var req := AuthzRequest("user1", Some(Select), Some("resource1"));
    assert AnyMatch(stored, req, Allow) by { assert Matches(req, p); }
    ok := authorizer.Authorized(req);
  }

  /** A deny followed by an allow, both matching the request: the request is refused. */
  method DenyOverridesScenario() returns (ok: bool)
    ensures !ok
  {
    var authorizer := new PolicyAuthorizer();
    var d := authorizer.AddPolicy("user1", PolicyRequest("user1", [Select], Some("resource1"), Deny));
    var a := authorizer.AddPolicy("user1", PolicyRequest("user1", [Select], Some("resource1"), Allow));
    var req := AuthzRequest("user1", Some(Select), Some("resource1"));
    assert authorizer.policies["user1"] == [d, a];
    DenyOverrides([d, a], d, req);
    ok := authorizer.Authorized(req);
  }

  /** An allow for `select` only: an `update` on the same resource is refused. */
  method UnlistedActionScenario() returns (ok: bool)
    ensures !ok
  {
    var authorizer := new PolicyAuthorizer();
    var p := authorizer.AddPolicy("user1", PolicyRequest("user1", [Select], Some("resource1"), Allow));
    var req := AuthzRequest("user1", Some(Update), Some("resource1"));
    assert authorizer.policies["user1"] == [p];
    assert !Matches(req, p) by { assert p.actions == [Select]; }
    NoMatchRefused([p], req);
    ok := authorizer.Authorized(req);
  }
}

/**
 * The allowlist manager behind the update, destroy and show endpoints. Its
 * state is two tables keyed by rule identifier: the local store of allowlists
 * and the firewall's rules. An update validates first, then asks the firewall
 * to replace the rule, and writes the store only once the firewall accepted;
 * a delete replaces the rule with the empty list and then clears the store.
 * A request refused at the gate (no authentication, feature flag off) does
 * nothing.
 */
module Manager {
  import opened Results
  import opened Json
  import opened Validator
  import opened Identity
  import opened Store
  import opened Firewall

  datatype State = State(store: Table, rules: Table)

  /** The outcome of authentication and feature-flag evaluation for a request. */
  datatype Access = Granted | Unauthenticated | FeatureDisabled

  datatype Response =
    | Ok(ips: seq<string>)
    | Deleted
    | Invalid(error: ValidationError)
    | FirewallError(message: string)
    | Refused(access: Access)

  datatype Outcome = Outcome(state: State, response: Response)

  /** The allowlist principal p sees: the stored list of its rule, or the empty list. */
  function EffectiveIps(st: State, p: Principal): (ips: seq<string>)
    ensures forall org :: BelongsTo(p, org) ==> ips == Get(st.store, org.name)
    ensures p.organization.None? ==> ips == Get(st.store, p.username)
  {
    Get(st.store, RuleId(p))
  }

  /** Replaces the allowlist of p's rule with the submitted one. */
  function Update(st: State, policy: Policy, backend: Backend, access: Access, p: Principal, raw: JValue): (o: Outcome)
    ensures access != Granted ==> o == Outcome(st, Refused(access))
    ensures access == Granted && Validate(raw, policy).Failure? ==>
              o == Outcome(st, Invalid(Validate(raw, policy).error))
    ensures access == Granted && Validate(raw, policy).Success? && backend.Failing? ==>
              o == Outcome(st, FirewallError(backend.message))
    ensures o.response.Ok? <==> access == Granted && Validate(raw, policy).Success? && backend.Accepting?
    ensures o.response.Ok? ==>
              && raw == StringArray(o.response.ips)
              && EffectiveIps(o.state, p) == o.response.ips
              && RuleId(p) in o.state.rules && o.state.rules[RuleId(p)] == o.response.ips
    ensures AgreeExcept(st.store, o.state.store, RuleId(p))
    ensures AgreeExcept(st.rules, o.state.rules, RuleId(p))
  {
    if access != Granted then Outcome(st, Refused(access))
    else
      match Validate(raw, policy)
      case Failure(e) => Outcome(st, Invalid(e))
      case Success(ips) =>
        var id := RuleId(p);
        match ReplaceRule(st.rules, backend, id, ips)
        case Failure(message) => Outcome(st, FirewallError(message))
        case Success(rules) => Outcome(State(Put(st.store, id, ips), rules), Ok(ips))
  }

  /** Empties the allowlist of p's rule: the firewall rule becomes the empty list and the stored entry goes. */
  function Delete(st: State, backend: Backend, access: Access, p: Principal): (o: Outcome)
    ensures access != Granted ==> o == Outcome(st, Refused(access))
    ensures access == Granted && backend.Failing? ==> o == Outcome(st, FirewallError(backend.message))
    ensures o.response == Deleted <==> access == Granted && backend.Accepting?
    ensures o.response == Deleted ==>
              && RuleId(p) in o.state.rules && o.state.rules[RuleId(p)] == []
              && RuleId(p) !in o.state.store
    ensures AgreeExcept(st.store, o.state.store, RuleId(p))
    ensures AgreeExcept(st.rules, o.state.rules, RuleId(p))
  {
    if access != Granted then Outcome(st, Refused(access))
    else
      var id := RuleId(p);
      match ReplaceRule(st.rules, backend, id, [])
      case Failure(message) => Outcome(st, FirewallError(message))
      case Success(rules) => Outcome(State(Clear(st.store, id), rules), Deleted)
  }

  /** Reports the allowlist in force for p; it never fails once past the gate. */
  function Show(st: State, access: Access, p: Principal): (r: Response)
    ensures access != Granted ==> r == Refused(access)
    ensures access == Granted ==> r.Ok?
    ensures access == Granted && RuleId(p) in st.store ==> r.ips == st.store[RuleId(p)]
    ensures access == Granted && RuleId(p) !in st.store ==> r.ips == []
  {
    if access != Granted then Refused(access) else Ok(EffectiveIps(st, p))
  }

  // ---------------------------------------------------------------------------
  // Properties of single requests and of pairs of requests

  /**
   * A successful update answers with the submitted list, and from then on every
   * principal with the same rule sees exactly that list.
   */
  lemma UpdateThenShow(st: State, policy: Policy, backend: Backend, p: Principal, q: Principal, ips: seq<string>)
    requires backend.Accepting? && Validate(StringArray(ips), policy).Success?
    requires RuleId(q) == RuleId(p)
    ensures Update(st, policy, backend, Granted, p, StringArray(ips)).response == Ok(ips)
    ensures Show(Update(st, policy, backend, Granted, p, StringArray(ips)).state, Granted, q) == Ok(ips)
    ensures Update(st, policy, backend, Granted, p, StringArray(ips)).state.rules[RuleId(p)] == ips
  {
    var o := Update(st, policy, backend, Granted, p, StringArray(ips));
    StringArrayInjective(o.response.ips, ips);
  }

  /**
   * The last successful update is the only one that leaves a trace: after
   * any update for the same rule, a successful one ends in exactly the state
   * and answer it would have produced on its own.
   */
  lemma UpdateReplaces(st: State, policy: Policy, b1: Backend, b2: Backend, a1: Access,
                       p1: Principal, p2: Principal, raw1: JValue, raw2: JValue)
    requires RuleId(p1) == RuleId(p2)
    requires Update(st, policy, b2, Granted, p2, raw2).response.Ok?
    ensures Update(Update(st, policy, b1, a1, p1, raw1).state, policy, b2, Granted, p2, raw2)
         == Update(st, policy, b2, Granted, p2, raw2)
  {
    var mid := Update(st, policy, b1, a1, p1, raw1).state;
    var ips := Validate(raw2, policy).value;
    var id := RuleId(p2);
    PutOverrides(st.store, mid.store, id, ips);
    PutOverrides(st.rules, mid.rules, id, ips);
    assert Update(mid, policy, b2, Granted, p2, raw2)
        == Outcome(State(Put(mid.store, id, ips), Put(mid.rules, id, ips)), Ok(ips));
    assert Update(st, policy, b2, Granted, p2, raw2)
        == Outcome(State(Put(st.store, id, ips), Put(st.rules, id, ips)), Ok(ips));
  }

  /** Submitting the same update twice leaves the same state, with the same answer, as submitting it once. */
  lemma UpdateIdempotent(st: State, policy: Policy, backend: Backend, access: Access, p: Principal, raw: JValue)
    ensures Update(Update(st, policy, backend, access, p, raw).state, policy, backend, access, p, raw)
         == Update(st, policy, backend, access, p, raw)
  {
    if Update(st, policy, backend, access, p, raw).response.Ok? {
      UpdateReplaces(st, policy, backend, backend, access, p, p, raw, raw);
    }
  }

  /**
   * An update that fails at validation or at the firewall changes what nobody
   * sees, and says why: a validation error names the "ips" field, a firewall
   * error carries the backend's message unchanged.
   */
  lemma FailedUpdateChangesNothing(st: State, policy: Policy, backend: Backend, p: Principal, q: Principal, raw: JValue)
    requires Validate(raw, policy).Failure? || backend.Failing?
    ensures Show(Update(st, policy, backend, Granted, p, raw).state, Granted, q) == Show(st, Granted, q)
    ensures Get(Update(st, policy, backend, Granted, p, raw).state.rules, RuleId(q)) == Get(st.rules, RuleId(q))
    ensures Validate(raw, policy).Failure? ==>
              Update(st, policy, backend, Granted, p, raw).response.Invalid? &&
              Update(st, policy, backend, Granted, p, raw).response.error.field == Field
    ensures Validate(raw, policy).Success? ==>
              Update(st, policy, backend, Granted, p, raw).response == FirewallError(backend.message)
  {
  }

  /** A delete the firewall refused leaves the list in both the store and the firewall. */
  lemma FailedDeleteChangesNothing(st: State, backend: Backend, p: Principal, q: Principal)
    requires backend.Failing?
    ensures Delete(st, backend, Granted, p).response == FirewallError(backend.message)
    ensures Show(Delete(st, backend, Granted, p).state, Granted, q) == Show(st, Granted, q)
    ensures Get(Delete(st, backend, Granted, p).state.rules, RuleId(q)) == Get(st.rules, RuleId(q))
  {
  }

  /**
   * After a successful delete, every principal sharing the rule sees the empty
   * list, and the firewall holds an empty rule under the identifier rather than
   * no rule at all.
   */
  lemma DeleteThenShow(st: State, backend: Backend, p: Principal, q: Principal)
    requires backend.Accepting? && RuleId(q) == RuleId(p)
    ensures Delete(st, backend, Granted, p).response == Deleted
    ensures Show(Delete(st, backend, Granted, p).state, Granted, q) == Ok([])
    ensures RuleId(p) in Delete(st, backend, Granted, p).state.rules
    ensures Delete(st, backend, Granted, p).state.rules[RuleId(p)] == []
  {
  }

  /** Requests refused at the gate touch neither the store nor the firewall. */
  lemma RefusedRequestsChangeNothing(st: State, policy: Policy, backend: Backend, access: Access, p: Principal, raw: JValue)
    requires access != Granted
    ensures Update(st, policy, backend, access, p, raw) == Outcome(st, Refused(access))
    ensures Delete(st, backend, access, p) == Outcome(st, Refused(access))
    ensures Show(st, access, p) == Refused(access)
  {
  }

  /**
   * A member's update writes the organization's rule only: owner and member
   * both see the new list, the firewall holds it under the organization's name,
   * and the rules under the member's and the owner's usernames stay as they were.
   */
  lemma OrganizationUpdate(st: State, policy: Policy, backend: Backend, org: Organization, member: Principal, ips: seq<string>)
    requires WellFormed(org) && member in org.members
    requires org.name != org.owner.username && org.name != member.username
    requires backend.Accepting? && Validate(StringArray(ips), policy).Success?
    ensures var o := Update(st, policy, backend, Granted, member, StringArray(ips));
            && o.response == Ok(ips)
            && Show(o.state, Granted, org.owner) == Ok(ips)
            && Show(o.state, Granted, member) == Ok(ips)
            && org.name in o.state.rules && o.state.rules[org.name] == ips
            && (member.username in o.state.rules <==> member.username in st.rules)
            && (org.owner.username in o.state.rules <==> org.owner.username in st.rules)
            && Get(o.state.rules, member.username) == Get(st.rules, member.username)
            && Get(o.state.rules, org.owner.username) == Get(st.rules, org.owner.username)
  {
    OrganizationSharesRule(org, member);
    OrganizationSharesRule(org, org.owner);
    UpdateThenShow(st, policy, backend, member, org.owner, ips);
    UpdateThenShow(st, policy, backend, member, member, ips);
  }

  // ---------------------------------------------------------------------------
  // The store never runs ahead of the firewall

  /** Every rule identifier reads the same list from the store as from the firewall. */
  ghost predicate Synchronized(st: State) {
    forall k :: Get(st.store, k) == Get(st.rules, k)
  }

  /**
   * A store entry changes only together with a firewall rule that already
   * holds the new list: the store is written only after the firewall accepted.
   */
  lemma StoreFollowsFirewall(st: State, policy: Policy, backend: Backend, access: Access, p: Principal, raw: JValue, k: string)
    ensures var o := Update(st, policy, backend, access, p, raw);
            Get(o.state.store, k) != Get(st.store, k) ==> Get(o.state.rules, k) == Get(o.state.store, k)
    ensures var o := Delete(st, backend, access, p);
            Get(o.state.store, k) != Get(st.store, k) ==> Get(o.state.rules, k) == Get(o.state.store, k)
  {
  }

  lemma UpdatePreservesSync(st: State, policy: Policy, backend: Backend, access: Access, p: Principal, raw: JValue)
    requires Synchronized(st)
    ensures Synchronized(Update(st, policy, backend, access, p, raw).state)
  {
    var o := Update(st, policy, backend, access, p, raw);
    forall k
      ensures Get(o.state.store, k) == Get(o.state.rules, k)
    {
      assert Get(st.store, k) == Get(st.rules, k);
    }
  }

  lemma DeletePreservesSync(st: State, backend: Backend, access: Access, p: Principal)
    requires Synchronized(st)
    ensures Synchronized(Delete(st, backend, access, p).state)
  {
    var o := Delete(st, backend, access, p);
    forall k
      ensures Get(o.state.store, k) == Get(o.state.rules, k)
    {
      assert Get(st.store, k) == Get(st.rules, k);
    }
  }

  // ---------------------------------------------------------------------------
  // Sequences of requests

  datatype Request =
    | UpdateIps(principal: Principal, raw: JValue)
    | DeleteIps(principal: Principal)
    | ShowIps(principal: Principal)

  /** A request as it arrives: what is asked, how the gate decided, and how the firewall will behave. */
  datatype Event = Event(request: Request, access: Access, backend: Backend)

  function Step(st: State, policy: Policy, e: Event): Outcome {
    match e.request
    case UpdateIps(p, raw) => Update(st, policy, e.backend, e.access, p, raw)
    case DeleteIps(p) => Delete(st, e.backend, e.access, p)
    case ShowIps(p) => Outcome(st, Show(st, e.access, p))
  }

  /** A request refused at the gate is answered with the refusal and changes nothing. */
  lemma StepRefused(st: State, policy: Policy, e: Event)
    requires e.access != Granted
    ensures Step(st, policy, e) == Outcome(st, Refused(e.access))
  {
  }

  /** The state after serving the requests in order, starting from st. */
  function Replay(st: State, policy: Policy, events: seq<Event>): State
    decreases |events|
  {
    if |events| == 0 then st
    else Step(Replay(st, policy, events[..|events| - 1]), policy, events[|events| - 1]).state
  }

  /** Serving one more request moves the replay on by one step. */
  lemma ReplaySnoc(st: State, policy: Policy, events: seq<Event>, i: nat)
    requires i < |events|
    ensures Replay(st, policy, events[..i + 1]) == Step(Replay(st, policy, events[..i]), policy, events[i]).state
  {
    assert events[..i + 1][..i] == events[..i];
  }

  /** However the requests and the firewall's answers go, store and firewall stay in step. */
  lemma {:induction false} ReplayPreservesSync(st: State, policy: Policy, events: seq<Event>)
    requires Synchronized(st)
    ensures Synchronized(Replay(st, policy, events))
  {
    if |events| > 0 {
      var before := Replay(st, policy, events[..|events| - 1]);
      var e := events[|events| - 1];
      ReplayPreservesSync(st, policy, events[..|events| - 1]);
      match e.request {
        case UpdateIps(p, raw) => UpdatePreservesSync(before, policy, e.backend, e.access, p, raw);
        case DeleteIps(p) => DeletePreservesSync(before, e.backend, e.access, p);
        case ShowIps(p) =>
      }
    }
  }

  /**
   * Serves requests one after another, from any state: the final state is the
   * replay of all of them, and each answer is the one its request gets in the
   * state the earlier requests left. Every request refused at the gate is
   * answered with the refusal, and when store and firewall start in step they
   * stay in step throughout.
   */
  method Serve(st: State, policy: Policy, events: seq<Event>) returns (final: State, responses: seq<Response>)
    ensures final == Replay(st, policy, events)
    ensures |responses| == |events|
    ensures forall i :: 0 <= i < |events| ==> responses[i] == Step(Replay(st, policy, events[..i]), policy, events[i]).response
    ensures Synchronized(st) ==> Synchronized(final)
    ensures forall i :: 0 <= i < |events| && events[i].access != Granted ==> responses[i] == Refused(events[i].access)
  {
    final := st;
    responses := [];
    for i := 0 to |events|
      invariant final == Replay(st, policy, events[..i])
      invariant |responses| == i
      invariant forall j :: 0 <= j < i ==> responses[j] == Step(Replay(st, policy, events[..j]), policy, events[j]).response
    {
      ReplaySnoc(st, policy, events, i);
      var o := Step(final, policy, events[i]);
      var before := responses;
      final := o.state;
      responses := responses + [o.response];
      assert forall j :: 0 <= j < i ==> responses[j] == before[j];
    }
    assert events[..|events|] == events;
    forall i | 0 <= i < |events| && events[i].access != Granted
      ensures responses[i] == Refused(events[i].access)
    {
      StepRefused(Replay(st, policy, events[..i]), policy, events[i]);
    }
    if Synchronized(st) {
      ReplayPreservesSync(st, policy, events);
    }
  }
}

/**
 * Who owns a firewall rule: an account that belongs to an organization shares
 * the organization's rule; any other account has a rule of its own.
 */
module Identity {
  import opened Results

  /** An account, with the name of the organization it belongs to, if any. */
  datatype Principal = Principal(username: string, organization: Option<string>)

  /** An organization, its owner and its other members. */
  datatype Organization = Organization(name: string, owner: Principal, members: seq<Principal>)

  predicate BelongsTo(p: Principal, org: Organization) {
    p.organization == Some(org.name)
  }

  /** Every account the organization lists names it as its organization. */
  predicate WellFormed(org: Organization) {
    && BelongsTo(org.owner, org)
    && forall i :: 0 <= i < |org.members| ==> BelongsTo(org.members[i], org)
  }

  /** The key of the principal's firewall rule and stored allowlist. */
  function RuleId(p: Principal): (id: string)
    ensures forall org :: BelongsTo(p, org) ==> id == org.name
    ensures p.organization.None? ==> id == p.username
  {
    match p.organization
    case Some(name) => name
    case None => p.username
  }

  /**
   * The owner and every member of an organization resolve to one and the same
   * rule, keyed by the organization's name; when that name is not the account's
   * own username, the account's username is never used as a key.
   */
  lemma OrganizationSharesRule(org: Organization, p: Principal)
    requires WellFormed(org)
    requires p == org.owner || p in org.members
    ensures RuleId(p) == org.name
    ensures org.name != p.username ==> RuleId(p) != p.username
  {
    if p != org.owner {
      var i :| 0 <= i < |org.members| && org.members[i] == p;
      assert BelongsTo(org.members[i], org);
    }
  }
}

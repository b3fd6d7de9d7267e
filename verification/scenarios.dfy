/**
 * The request examples of the DB-direct IP endpoints, replayed against the
 * model for every policy the examples allow.
 */
module Scenarios {
  import opened Results
  import opened Decimal
  import opened Json
  import opened Ipv4
  import opened Validator
  import opened Identity
  import opened Store
  import opened Firewall
  import opened Manager
  import opened SampleTexts

  const Empty: State := State(map[], map[])

  const Alice: Principal := Principal("alice", None)

  /** Lists the examples submit and expect back. */
  const Single: seq<string> := ["100.20.30.40"]
  const First: seq<string> := ["100.20.30.40", "200.20.30.40/24"]
  const Second: seq<string> := ["11.21.31.41"]

  lemma Accepts100(policy: Policy)
    ensures CheckEntry(JString("100.20.30.40"), policy) == Success("100.20.30.40")
  {
    FormatOf100();
    OutsideReservedAccepted(Cidr([100, 20, 30, 40], None), policy);
  }

  /** A "/24" entry with host bits set is accepted and echoed as written, not reduced to its network. */
  lemma Accepts200Slash24(policy: Policy)
    ensures CheckEntry(JString("200.20.30.40/24"), policy) == Success("200.20.30.40/24")
  {
    FormatOf200();
    OutsideReservedAccepted(Cidr([200, 20, 30, 40], Some(24)), policy);
  }

  lemma Accepts11(policy: Policy)
    ensures CheckEntry(JString("11.21.31.41"), policy) == Success("11.21.31.41")
  {
    FormatOf11();
    OutsideReservedAccepted(Cidr([11, 21, 31, 41], None), policy);
  }

  /** A list whose every element the check accepts is accepted and echoed unchanged. */
  lemma AcceptsList(ips: seq<string>, policy: Policy)
    requires forall i :: 0 <= i < |ips| ==> CheckEntry(JString(ips[i]), policy).Success?
    ensures Validate(StringArray(ips), policy) == Success(ips)
  {
    var raw := StringArray(ips);
    ValidateMeaning(raw, policy);
    forall j | 0 <= j < |raw.items|
      ensures raw.items[j].JString? && Admissible(raw.items[j].text, policy)
    {
      CheckEntryMeaning(raw.items[j], policy);
    }
    StringArrayInjective(Validate(raw, policy).value, ips);
  }

  lemma AcceptsSingle(policy: Policy)
    ensures Validate(StringArray(Single), policy) == Success(Single)
  {
    Accepts100(policy);
    AcceptsList(Single, policy);
  }

  /** An accepted entry in front of an accepted list makes an accepted list. */
  lemma AcceptsCons(x: string, rest: seq<string>, policy: Policy)
    requires CheckEntry(JString(x), policy).Success?
    requires Validate(StringArray(rest), policy) == Success(rest)
    ensures Validate(StringArray([x] + rest), policy) == Success([x] + rest)
  {
    var ips := [x] + rest;
    forall i | 0 <= i < |ips|
      ensures CheckEntry(JString(ips[i]), policy).Success?
    {
      if i > 0 {
        assert ips[i] == rest[i - 1];
        assert StringArray(rest).items[i - 1] == JString(rest[i - 1]);
        CheckEntryMeaning(JString(rest[i - 1]), policy);
        ValidateMeaning(StringArray(rest), policy);
      }
    }
    AcceptsList(ips, policy);
  }

  lemma AcceptsSlash24Alone(policy: Policy)
    ensures Validate(StringArray(["200.20.30.40/24"]), policy) == Success(["200.20.30.40/24"])
  {
    Accepts200Slash24(policy);
    AcceptsList(["200.20.30.40/24"], policy);
  }

  lemma AcceptsFirst(policy: Policy)
    ensures Validate(StringArray(First), policy) == Success(First)
  {
    Accepts100(policy);
    AcceptsSlash24Alone(policy);
    AcceptsCons("100.20.30.40", ["200.20.30.40/24"], policy);
    assert ["100.20.30.40"] + ["200.20.30.40/24"] == First;
  }

  lemma AcceptsSecond(policy: Policy)
    ensures Validate(StringArray(Second), policy) == Success(Second)
  {
    Accepts11(policy);
    AcceptsList(Second, policy);
  }

  /** The lists the examples submit are accepted and echoed unchanged, "/24" host bits included. */
  lemma AcceptsSampleLists(policy: Policy)
    ensures Validate(StringArray(Single), policy) == Success(Single)
    ensures Validate(StringArray(First), policy) == Success(First)
    ensures Validate(StringArray(Second), policy) == Success(Second)
  {
    AcceptsSingle(policy);
    AcceptsFirst(policy);
    AcceptsSecond(policy);
  }

  /** A one-element list is refused when its element is. */
  lemma RejectsWithBadElement(v: JValue, policy: Policy)
    requires CheckEntry(v, policy).Failure?
    ensures Validate(JArray([v]), policy).Failure?
    ensures Validate(JArray([v]), policy).error == ValidationError(Field, BadEntry(0, CheckEntry(v, policy).error))
  {
  }

  lemma RejectsUnspecified(policy: Policy)
    ensures CheckEntry(JString("0.0.0.0"), policy) == Failure(ReservedRange(Unspecified))
  {
    FormatOf0();
    var c := Cidr([0, 0, 0, 0], None);
    assert Reaches(AddressBits(c.octets), 32, ReservedBlocks(policy)[0]);
    assert CheckCidr(c, policy) == Failure(ReservedRange(Unspecified));
    CheckEntryOfFormat(c, policy);
  }

  lemma RejectsPrivate10(policy: Policy)
    ensures CheckEntry(JString("10.20.30.40"), policy).Failure?
  {
    FormatOf10();
    ReservedAddressesRejected(Cidr([10, 20, 30, 40], None), policy);
    CheckEntryOfFormat(Cidr([10, 20, 30, 40], None), policy);
  }

  lemma RejectsLoopback(policy: Policy)
    ensures CheckEntry(JString("127.0.0.1"), policy).Failure?
  {
    FormatOf127();
    ReservedAddressesRejected(Cidr([127, 0, 0, 1], None), policy);
    CheckEntryOfFormat(Cidr([127, 0, 0, 1], None), policy);
  }

  lemma RejectsPrivate192(policy: Policy)
    ensures CheckEntry(JString("192.168.1.1"), policy).Failure?
  {
    FormatOf192();
    ReservedAddressesRejected(Cidr([192, 168, 1, 1], None), policy);
    CheckEntryOfFormat(Cidr([192, 168, 1, 1], None), policy);
  }

  /** A "/20" is too broad for every policy, whatever its address. */
  lemma RejectsSlash20(policy: Policy)
    ensures CheckEntry(JString("120.120.120.120/20"), policy) == Failure(PrefixTooBroad)
  {
    FormatOf120();
    var c := Cidr([120, 120, 120, 120], Some(20));
    assert CheckCidr(c, policy) == Failure(PrefixTooBroad);
    CheckEntryOfFormat(c, policy);
  }

  lemma RejectsOctet300(policy: Policy)
    ensures CheckEntry(JString("100.100.100.300"), policy) == Failure(OctetOutOfRange)
  {
    FormatOf300();
    CheckEntryOfFormat(Cidr([100, 100, 100, 300], None), policy);
  }

  /** Text that is not a dotted quad and a number instead of a string are refused. */
  lemma RejectsNonAddresses(policy: Policy)
    ensures CheckEntry(JString("not-an-ip"), policy) == Failure(Malformed)
    ensures CheckEntry(JNumber(11223344), policy) == Failure(NotAString)
  {
  }

  /** Each element the rejected examples submit is refused on its own. */
  lemma RejectsSampleEntries(policy: Policy)
    ensures CheckEntry(JString("0.0.0.0"), policy).Failure?
    ensures CheckEntry(JString("10.20.30.40"), policy).Failure?
    ensures CheckEntry(JString("127.0.0.1"), policy).Failure?
    ensures CheckEntry(JString("192.168.1.1"), policy).Failure?
    ensures CheckEntry(JString("120.120.120.120/20"), policy).Failure?
    ensures CheckEntry(JString("100.100.100.300"), policy).Failure?
    ensures CheckEntry(JString("not-an-ip"), policy) == Failure(Malformed)
    ensures CheckEntry(JNumber(11223344), policy) == Failure(NotAString)
  {
    RejectsUnspecified(policy);
    RejectsPrivate10(policy);
    RejectsLoopback(policy);
    RejectsPrivate192(policy);
    RejectsSlash20(policy);
    RejectsOctet300(policy);
    RejectsNonAddresses(policy);
  }

  lemma RejectsSampleInputs(policy: Policy)
    ensures Validate(JArray([JString("0.0.0.0")]), policy).Failure?
    ensures Validate(JArray([JString("10.20.30.40")]), policy).Failure?
    ensures Validate(JArray([JString("127.0.0.1")]), policy).Failure?
    ensures Validate(JArray([JString("192.168.1.1")]), policy).Failure?
    ensures Validate(JArray([JString("120.120.120.120/20")]), policy).Failure?
    ensures Validate(JArray([JString("100.100.100.300")]), policy).Failure?
    ensures Validate(JArray([JString("not-an-ip")]), policy).Failure?
    ensures Validate(JArray([JNumber(11223344)]), policy).Failure?
    ensures Validate(JString("100.20.30.40"), policy) == Failure(ValidationError(Field, NotAList))
  {
    RejectsSampleEntries(policy);
    RejectsWithBadElement(JString("0.0.0.0"), policy);
    RejectsWithBadElement(JString("10.20.30.40"), policy);
    RejectsWithBadElement(JString("127.0.0.1"), policy);
    RejectsWithBadElement(JString("192.168.1.1"), policy);
    RejectsWithBadElement(JString("120.120.120.120/20"), policy);
    RejectsWithBadElement(JString("100.100.100.300"), policy);
    RejectsWithBadElement(JString("not-an-ip"), policy);
    RejectsWithBadElement(JNumber(11223344), policy);
  }

  // ---------------------------------------------------------------------------
  // Requests

  /**
   * An account outside any organization creates its first list: the answer is
   * the list, the account sees it, and the firewall holds it under the username.
   */
  lemma CreateSingle(policy: Policy)
    ensures var o := Update(Empty, policy, Accepting, Granted, Alice, StringArray(Single));
            && o.response == Ok(Single)
            && Show(o.state, Granted, Alice) == Ok(Single)
            && "alice" in o.state.rules && o.state.rules["alice"] == Single
  {
    AcceptsSampleLists(policy);
    UpdateThenShow(Empty, policy, Accepting, Alice, Alice, Single);
  }

  /**
   * An unaffiliated account sets a list, replaces it with another and deletes
   * it: each answer, each effective list and the firewall rule under its
   * username follow the latest successful request only.
   */
  lemma ReplaceThenDelete(policy: Policy)
    ensures var o1 := Update(Empty, policy, Accepting, Granted, Alice, StringArray(First));
            var o2 := Update(o1.state, policy, Accepting, Granted, Alice, StringArray(Second));
            var o3 := Delete(o2.state, Accepting, Granted, Alice);
            && o1.response == Ok(First)
            && Show(o1.state, Granted, Alice) == Ok(First)
            && o1.state.rules["alice"] == First
            && o2.response == Ok(Second)
            && Show(o2.state, Granted, Alice) == Ok(Second)
            && o2.state.rules["alice"] == Second
            && o2 == Update(Empty, policy, Accepting, Granted, Alice, StringArray(Second))
            && o3.response == Deleted
            && Show(o3.state, Granted, Alice) == Ok([])
            && "alice" in o3.state.rules && o3.state.rules["alice"] == []
  {
    AcceptsSampleLists(policy);
    var o1 := Update(Empty, policy, Accepting, Granted, Alice, StringArray(First));
    UpdateThenShow(Empty, policy, Accepting, Alice, Alice, First);
    UpdateThenShow(o1.state, policy, Accepting, Alice, Alice, Second);
    UpdateReplaces(Empty, policy, Accepting, Accepting, Granted, Alice, Alice, StringArray(First), StringArray(Second));
    var o2 := Update(o1.state, policy, Accepting, Granted, Alice, StringArray(Second));
    DeleteThenShow(o2.state, Accepting, Alice, Alice);
  }

  /**
   * A member of organization "acme" sets the list: owner and member both see
   * it, the firewall holds it under "acme", and no rule appears under either
   * username.
   */
  lemma MemberUpdatesOrganization(policy: Policy)
    ensures var bob := Principal("bob", Some("acme"));
            var carol := Principal("carol", Some("acme"));
            var o := Update(Empty, policy, Accepting, Granted, carol, StringArray(Single));
            && o.response == Ok(Single)
            && Show(o.state, Granted, bob) == Ok(Single)
            && Show(o.state, Granted, carol) == Ok(Single)
            && o.state.rules["acme"] == Single
            && "bob" !in o.state.rules && "carol" !in o.state.rules
  {
    AcceptsSampleLists(policy);
    var bob := Principal("bob", Some("acme"));
    var carol := Principal("carol", Some("acme"));
    var acme := Organization("acme", bob, [carol]);
    assert WellFormed(acme);
    OrganizationUpdate(Empty, policy, Accepting, acme, carol, Single);
  }

  /** A failing firewall makes an update answer with its message and record nothing anywhere. */
  lemma FirewallErrorOnUpdate(policy: Policy)
    ensures Update(Empty, policy, Failing("FIREWALL ERROR"), Granted, Alice, StringArray(Single))
         == Outcome(Empty, FirewallError("FIREWALL ERROR"))
  {
    AcceptsSampleLists(policy);
  }

  /** Deleting an existing list: a failing firewall keeps it in both places, an accepting one empties it. */
  lemma DeleteExisting()
    ensures var existing := State(map["alice" := Single], map["alice" := Single]);
            && Delete(existing, Failing("FIREWALL ERROR"), Granted, Alice)
               == Outcome(existing, FirewallError("FIREWALL ERROR"))
            && Delete(existing, Accepting, Granted, Alice).response == Deleted
            && Show(Delete(existing, Accepting, Granted, Alice).state, Granted, Alice) == Ok([])
            && Delete(existing, Accepting, Granted, Alice).state.rules["alice"] == []
  {
  }

  /** Unauthenticated and flag-off requests change nothing, for update and delete alike. */
  lemma GatedRequests(policy: Policy)
    ensures var existing := State(map["alice" := Single], map["alice" := Single]);
            && Update(Empty, policy, Accepting, Unauthenticated, Alice, StringArray(Single))
               == Outcome(Empty, Refused(Unauthenticated))
            && Update(Empty, policy, Accepting, FeatureDisabled, Alice, StringArray(Single))
               == Outcome(Empty, Refused(FeatureDisabled))
            && Delete(existing, Accepting, Unauthenticated, Alice) == Outcome(existing, Refused(Unauthenticated))
            && Delete(existing, Accepting, FeatureDisabled, Alice) == Outcome(existing, Refused(FeatureDisabled))
  {
  }

  /** Every rejected input leaves the store and the firewall empty and reports the "ips" field. */
  lemma InvalidInputsChangeNothing(policy: Policy)
    ensures var o := Update(Empty, policy, Accepting, Granted, Alice, JArray([JString("0.0.0.0")]));
            o.state == Empty && o.response.Invalid? && o.response.error.field == "ips"
    ensures var o := Update(Empty, policy, Accepting, Granted, Alice, JArray([JString("10.20.30.40")]));
            o.state == Empty && o.response.Invalid? && o.response.error.field == "ips"
    ensures var o := Update(Empty, policy, Accepting, Granted, Alice, JArray([JString("127.0.0.1")]));
            o.state == Empty && o.response.Invalid? && o.response.error.field == "ips"
    ensures var o := Update(Empty, policy, Accepting, Granted, Alice, JArray([JString("192.168.1.1")]));
            o.state == Empty && o.response.Invalid? && o.response.error.field == "ips"
    ensures var o := Update(Empty, policy, Accepting, Granted, Alice, JArray([JString("120.120.120.120/20")]));
            o.state == Empty && o.response.Invalid? && o.response.error.field == "ips"
    ensures var o := Update(Empty, policy, Accepting, Granted, Alice, JArray([JString("100.100.100.300")]));
            o.state == Empty && o.response.Invalid? && o.response.error.field == "ips"
    ensures var o := Update(Empty, policy, Accepting, Granted, Alice, JArray([JString("not-an-ip")]));
            o.state == Empty && o.response.Invalid? && o.response.error.field == "ips"
    ensures var o := Update(Empty, policy, Accepting, Granted, Alice, JArray([JNumber(11223344)]));
            o.state == Empty && o.response.Invalid? && o.response.error.field == "ips"
    ensures Update(Empty, policy, Accepting, Granted, Alice, JString("100.20.30.40"))
         == Outcome(Empty, Invalid(ValidationError("ips", NotAList)))
  {
    RejectsSampleInputs(policy);
  }

  /**
   * Show answers with the stored list even when the firewall holds no rule
   * for the account, and is refused at the gate whatever is stored.
   */
  lemma ShowStored()
    ensures var stored := State(map["alice" := Single], map[]);
            && Show(stored, Granted, Alice) == Ok(Single)
            && Show(stored, Unauthenticated, Alice) == Refused(Unauthenticated)
            && Show(stored, FeatureDisabled, Alice) == Refused(FeatureDisabled)
  {
  }

  /** With nothing stored, show answers with the empty list. */
  lemma ShowUnconfigured()
    ensures Show(Empty, Granted, Alice) == Ok([])
  {
  }
}

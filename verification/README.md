# DB-direct IP allowlist

A Dafny model of the DB-direct IP allowlist behind CARTO's `dbdirect_ip`
endpoints. An account lists the IPv4 addresses and CIDR ranges that may
connect to its database directly. The list is pushed to a firewall as a rule,
and the accepted list is kept in a local store. The model has three parts.

- **Validation** (`Validator`, built on `Ipv4`, `Decimal`, `Text`, `Json`).
  It validates the submitted `ips` value. A scalar is refused, and so is a
  list with a non-string element. So is an entry that:
  - is not a dotted quad, optionally with a `/prefix`;
  - has an octet above 255;
  - has a prefix above 32 or broader than the policy's threshold;
  - denotes a range that reaches 0.0.0.0 or 127/8 (section 3.2.1.3 of RFC 1122);
  - reaches 10/8 or 192.168/16 (section 3 of RFC 1918);
  - reaches 172.16/12, when the policy switches that block on.

  An accepted list is returned exactly as submitted, in order.
- **Rule identifiers** (`Identity`). An account that belongs to an
  organization uses the organization's rule, keyed by the organization's name.
  Any other account uses a rule keyed by its own username.
- **The allowlist manager** (`Store`, `Firewall`, `Manager`). The state is two
  tables from rule identifier to IP list: the local store and the firewall's
  rules.
  - *Update* validates the list, asks the firewall to replace the rule, and
    writes the store only after the firewall accepted.
  - *Delete* replaces the rule with the empty list, then removes the store entry.
  - *Show* reads the store; a missing entry reads as the empty list.
  - A request refused at the gate changes nothing. The gate refuses when the
    caller is not authenticated or the `dbdirect` feature flag is off.
  - A firewall that fails reports its message, and nothing changes.

The production classes are not part of this model: the controller,
`Carto::DbdirectIp`, `dbdirect_effective_ips` and the firewall manager
classes. The behaviour is taken from the request examples in
`spec/requests/carto/api/dbdirect_ips_controller_spec.rb`. The two firewall
doubles defined there become the `Firewall.Backend` cases:
- `Accepting` overwrites one rule;
- `Failing(message)` raises its message.

`Scenarios` replays the request examples against the model, for every policy
the examples allow:
- refused updates, deletes and shows;
- a first list created and then replaced;
- the accepted and the rejected lists;
- an organization member's update;
- firewall failures on update and delete;
- deletes of an existing list;
- shows of a stored list and of no list.

Where an example checks only the HTTP status, the scenario checks the
corresponding `Manager.Response`.

### Modelling choices

- **Prefix threshold.** The examples reject `/20` and accept `/24`. The
  shortest prefix length accepted is therefore a parameter
  `Validator.PrefixThreshold` with 20 < threshold ≤ 24, and every property
  holds for every such threshold.
- **Numerals.** Numerals must be canonical decimal (no leading zeros, no
  sign). Under that rule, the text an entry parses from is the text it formats
  to (`Ipv4.Parse`).
- **Verbatim echo.** The accepted list is echoed verbatim, so
  `200.20.30.40/24` comes back with its host bits (lines 142-152). Because
  numerals must be canonical, the text an entry is accepted from is also its
  canonical text.
- **Reserved ranges.** A range is refused when any address it covers lies in a
  reserved block (`Validator.Admissible`). Addresses are 32-bit sequences, most
  significant bit first. A range "v/p" covers the addresses that agree with v
  on the first p bits.
- **Unspecified address.** Only the single address 0.0.0.0 is refused as
  unspecified, not the whole 0/8 block. The examples name only that address.
- **Edge cases the examples leave open.**
  - An empty list is accepted.
  - When several entries are bad, the error names the first.

## Model

Every source cell refers to `spec/requests/carto/api/dbdirect_ips_controller_spec.rb`.

| member | source | states |
|---|---|---|
| Validator.Validate | spec/requests/carto/api/dbdirect_ips_controller_spec.rb:173-199 | Every error is reported under the `ips` field. A value that is not a list is refused as such. An accepted submission is exactly the JSON array of the returned strings, so the response echoes the input verbatim and in order. A refused list names the first element the entry check refuses, and that check's reason. |
| Validator.ValidateMeaning | spec/requests/carto/api/dbdirect_ips_controller_spec.rb:173-179 | A submission is accepted exactly when it is a list and every element is a string naming an admissible range. |
| Validator.CheckCidr | spec/requests/carto/api/dbdirect_ips_controller_spec.rb:174-178 | A parsed entry that passes is returned unchanged, with octets in range and a prefix between the threshold and 32. A failure is never "not a string" or "malformed"; those belong to the element and its text. |
| Validator.CheckCidrMeaning | spec/requests/carto/api/dbdirect_ips_controller_spec.rb:174-178 | The checks accept a parsed entry exactly when its octets are in range, its prefix lies between the threshold and 32, and no address its range covers lies in a reserved block. |
| Validator.CheckEntry | spec/requests/carto/api/dbdirect_ips_controller_spec.rb:176-177 | An accepted element is the string that is returned. A non-string element such as `11223344` is refused as not a string. |
| Validator.CheckEntryMeaning | spec/requests/carto/api/dbdirect_ips_controller_spec.rb:173-179 | The entry check accepts exactly the admissible strings. An admissible string parses as a dotted quad with octets ≤ 255 and a prefix between the threshold and 32. No address its range covers lies in a reserved block. |
| Validator.CheckEntryOfFormat | spec/requests/carto/api/dbdirect_ips_controller_spec.rb:173-179 | The verdict on an entry's written form is the verdict of the checks on its parsed form, including which error is reported. |
| Validator.FirstReached | spec/requests/carto/api/dbdirect_ips_controller_spec.rb:174-175 | The block search finds nothing exactly when the range overlaps no reserved block. What it finds is the kind of the first block, in table order, that the range overlaps; every earlier block is not overlapped. |
| Validator.FirstReachedMeaning | spec/requests/carto/api/dbdirect_ips_controller_spec.rb:174-175 | The block search finds nothing exactly when no address covered by the range is a reserved address. |
| Validator.ReservedBlocks | spec/requests/carto/api/dbdirect_ips_controller_spec.rb:174-175 | Every reserved block is a four-octet network with a length between 8 and 32. |
| Validator.ReservedAddressesRejected | spec/requests/carto/api/dbdirect_ips_controller_spec.rb:174-175 | A parsed entry with address 0.0.0.0 is refused with any prefix up to /32, and so is any entry in 127/8, 10/8 or 192.168/16. When the prefix is within the policy, the error names the reserved range. |
| Validator.OutsideReservedAccepted | spec/requests/carto/api/dbdirect_ips_controller_spec.rb:141-171 | Take any range within the prefix policy whose first octet starts no reserved block. Its canonical text is accepted and echoed unchanged. |
| Validator.HostBitsIrrelevant | spec/requests/carto/api/dbdirect_ips_controller_spec.rb:141-152 | Two entries with the same prefix length that agree on the network bits get the same verdict and the same error. A prefix is judged by its length and network, never by host bits. |
| Validator.Collect | spec/requests/carto/api/dbdirect_ips_controller_spec.rb:180-198 | The list passes exactly when every element passes, and the result lists the elements' texts in order. Otherwise the error is at the first failing index, and every element before it passed. |
| Ipv4.Parse | spec/requests/carto/api/dbdirect_ips_controller_spec.rb:141-152 | Whatever text parses has four octets and is its own canonical form: formatting the parsed value gives back the input exactly. |
| Ipv4.FormatParse | spec/requests/carto/api/dbdirect_ips_controller_spec.rb:141-152 | Parsing the canonical text of any four-octet specification gives that specification back, prefix included. |
| Ipv4.ParseInjective | spec/requests/carto/api/dbdirect_ips_controller_spec.rb:141-152 | Two texts that parse to the same specification are the same text, so echoing the parsed form loses nothing. |
| Ipv4.OverlapMeaning | spec/requests/carto/api/dbdirect_ips_controller_spec.rb:174-176 | Two ranges agree on their shorter prefix exactly when some address lies in both. |
| Ipv4.OverlapIgnoresHostBits | spec/requests/carto/api/dbdirect_ips_controller_spec.rb:141-152 | Whether a range overlaps another depends only on its first p bits. |
| Identity.RuleId | spec/requests/carto/api/dbdirect_ips_controller_spec.rb:113-115 | The rule identifier of an account in an organization is the organization's name. That of an account outside any organization is its username. Lines 213-217 show the organization case. |
| Identity.OrganizationSharesRule | spec/requests/carto/api/dbdirect_ips_controller_spec.rb:201-223 | The owner and every member of an organization resolve to the organization's name as rule identifier, never to their own username when it differs. |
| Store.Put | spec/requests/carto/api/dbdirect_ips_controller_spec.rb:114-115 | After a write, the identifier is present and reads as the new list. Every other identifier is untouched. |
| Store.Clear | spec/requests/carto/api/dbdirect_ips_controller_spec.rb:294 | After a clear, the identifier is absent and reads as the empty list. Every other identifier is untouched. |
| Store.ReadAfterWrite | spec/requests/carto/api/dbdirect_ips_controller_spec.rb:400-413 | Reading an identifier after a put gives the new list at that identifier and the old reading elsewhere. After a clear it gives the empty list at that identifier and the old reading elsewhere. |
| Store.PutOverrides | spec/requests/carto/api/dbdirect_ips_controller_spec.rb:141-171 | Two tables that differ only at one identifier become equal once a list is written there. |
| Firewall.ReplaceRule | spec/requests/carto/api/dbdirect_ips_controller_spec.rb:21-32 | The call succeeds exactly when the backend accepts. On success, the rule for the identifier holds the new list and every other rule is unchanged. On failure, the result carries the backend's message. |
| Manager.EffectiveIps | spec/requests/carto/api/dbdirect_ips_controller_spec.rb:213-214 | A member of an organization sees the list stored under the organization's name. An account outside any organization sees the list stored under its username, or the empty list. |
| Manager.Update | spec/requests/carto/api/dbdirect_ips_controller_spec.rb:103-120 | A refused request changes nothing. So do an invalid list and a failing firewall. The answer is `Ok` exactly when access is granted, the list validates and the firewall accepts. Then the answer is the submitted list, and both the store and the firewall hold it under the caller's rule identifier. No other identifier changes in either table. |
| Manager.Delete | spec/requests/carto/api/dbdirect_ips_controller_spec.rb:286-333 | A refused request changes nothing; a failing firewall returns its message and changes nothing. The delete succeeds exactly when access is granted and the firewall accepts. Then the firewall rule is the empty list and the store entry is gone. No other identifier changes. |
| Manager.Show | spec/requests/carto/api/dbdirect_ips_controller_spec.rb:372-413 | Once past the gate, show never fails. It returns the stored list of the caller's rule, or the empty list when none is stored. |
| Manager.UpdateThenShow | spec/requests/carto/api/dbdirect_ips_controller_spec.rb:103-139 | After a successful update, the answer is the submitted list. Show returns that list for every principal sharing the rule, and the firewall holds it. |
| Manager.UpdateReplaces | spec/requests/carto/api/dbdirect_ips_controller_spec.rb:141-171 | Take any earlier update for the same rule, successful or not. A later successful update ends in exactly the state and answer it would produce on its own, so no trace of the earlier list remains. |
| Manager.UpdateIdempotent | spec/requests/carto/api/dbdirect_ips_controller_spec.rb:141-171 | Submitting the same update twice gives the same state and answer as submitting it once. |
| Manager.FailedUpdateChangesNothing | spec/requests/carto/api/dbdirect_ips_controller_spec.rb:225-242 | An update that fails validation or at the firewall changes no principal's effective list and no firewall rule. A validation failure answers with an error on `ips`; a firewall failure answers with the backend's message. |
| Manager.FailedDeleteChangesNothing | spec/requests/carto/api/dbdirect_ips_controller_spec.rb:318-333 | A delete the firewall refuses answers with the backend's message. It leaves every effective list and every firewall rule as it was. |
| Manager.DeleteThenShow | spec/requests/carto/api/dbdirect_ips_controller_spec.rb:286-316 | After a successful delete, every principal sharing the rule sees the empty list. The firewall holds an empty rule under the identifier rather than no rule. |
| Manager.RefusedRequestsChangeNothing | spec/requests/carto/api/dbdirect_ips_controller_spec.rb:74-101 | Update, delete and show refused at the gate answer with the refusal and leave the state unchanged. Lines 260-284 show the same for delete. Lines 349-370 check only the 401 and 403 status of a refused show, which the `Refused` answer stands for. |
| Manager.OrganizationUpdate | spec/requests/carto/api/dbdirect_ips_controller_spec.rb:201-223 | Suppose a member of an organization updates successfully. Then both the owner and the member see the new list, and the firewall holds it under the organization's name. The rules under the member's and the owner's usernames are exactly as before. |
| Manager.StoreFollowsFirewall | spec/requests/carto/api/dbdirect_ips_controller_spec.rb:225-242 | Whenever an update or delete changes a store entry, the firewall already holds the same list for that identifier. |
| Manager.UpdatePreservesSync | spec/requests/carto/api/dbdirect_ips_controller_spec.rb:103-242 | If store and firewall agree on every identifier before an update, whatever its outcome, they agree after it. |
| Manager.DeletePreservesSync | spec/requests/carto/api/dbdirect_ips_controller_spec.rb:245-333 | If store and firewall agree on every identifier before a delete, whatever its outcome, they agree after it. |
| Manager.Serve | spec/requests/carto/api/dbdirect_ips_controller_spec.rb:62-413 | Serving a sequence of requests from any state yields one response per request. The final state is the replay of every request in order, and each response is the one its request gets in the state the earlier requests left. Every request refused at the gate is answered with its refusal. When store and firewall start in agreement they stay in agreement, for either backend. |
| Manager.ReplayPreservesSync | spec/requests/carto/api/dbdirect_ips_controller_spec.rb:225-242 | Store and firewall that agree before a sequence of requests agree after it, whatever the requests and for either backend. |
| Scenarios.AcceptsSampleLists | spec/requests/carto/api/dbdirect_ips_controller_spec.rb:141-171 | The lists `["100.20.30.40"]`, `["100.20.30.40", "200.20.30.40/24"]` and `["11.21.31.41"]` are accepted under every policy and returned unchanged. |
| Scenarios.RejectsSampleInputs | spec/requests/carto/api/dbdirect_ips_controller_spec.rb:173-179 | Each of the nine rejected inputs fails validation under every policy. The bare string fails as not a list. |
| Scenarios.InvalidInputsChangeNothing | spec/requests/carto/api/dbdirect_ips_controller_spec.rb:173-199 | An update with any of the nine rejected inputs leaves store and firewall empty and answers with a validation error on `ips`. |
| Scenarios.CreateSingle | spec/requests/carto/api/dbdirect_ips_controller_spec.rb:103-139 | An account outside any organization creates `["100.20.30.40"]`. The answer is that list, the account sees it, and the firewall holds it under the username. |
| Scenarios.ReplaceThenDelete | spec/requests/carto/api/dbdirect_ips_controller_spec.rb:141-171 | Setting one list, replacing it with a second, then deleting: each answer, each shown list and each firewall rule follow the latest request only. |
| Scenarios.MemberUpdatesOrganization | spec/requests/carto/api/dbdirect_ips_controller_spec.rb:201-223 | Member `carol` of `acme` updates. `bob` and `carol` both see the list, the firewall holds it under `acme`, and there is no rule under `bob` or `carol`. |
| Scenarios.FirewallErrorOnUpdate | spec/requests/carto/api/dbdirect_ips_controller_spec.rb:225-242 | With a failing firewall, an update answers with `FIREWALL ERROR` and leaves both tables empty. |
| Scenarios.DeleteExisting | spec/requests/carto/api/dbdirect_ips_controller_spec.rb:245-333 | Start from a stored and pushed list. A failing delete keeps it; an accepted delete leaves an empty rule and an empty effective list. |
| Scenarios.GatedRequests | spec/requests/carto/api/dbdirect_ips_controller_spec.rb:260-284 | Unauthenticated and flag-off updates and deletes answer with the refusal and change nothing. |
| Scenarios.ShowStored | spec/requests/carto/api/dbdirect_ips_controller_spec.rb:336-398 | With a list stored and no firewall rule, show answers with the stored list. Unauthenticated and flag-off shows are refused. |
| Scenarios.ShowUnconfigured | spec/requests/carto/api/dbdirect_ips_controller_spec.rb:400-413 | With nothing stored, show answers with the empty list. |

## Left out

- HTTP status codes are not modelled: 401, 403, 201, 204, 200, 422 and 500. Each outcome is a `Manager.Response` constructor instead.
- Routing, the request helpers and the JSON encoding of response bodies are not modelled.
- Authentication by API key or session, and feature-flag evaluation, are not modelled. Their result is the `Manager.Access` input of each request.
- The firewall configuration passed through to the firewall manager (`'the-config'`, lines 43-45 and 116) is left out. It is test wiring with no effect on the lists.
- Database persistence, `reload`, `delete_all` and class-level stubbing are left out. The store is a map.
- A firewall call that applies the rule and then reports failure, such as a timeout after the change, is not modelled. A backend either accepts every call or fails every call and changes nothing, like the two doubles at lines 6-32.
- IPv6 is left out. No example exercises it.
- JSON values other than strings, integers and arrays are left out, and so is a request with no `ips` field. The examples submit neither.
- The exact wording of validation errors is left out. An error is the field name `ips` plus a structured reason. The firewall's message is carried unchanged.
- The exact prefix threshold is left out. It is a parameter between /21 and /24, the only range the examples pin down.

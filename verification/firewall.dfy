/**
 * The firewall backend, seen through its one operation: replace the rule for a
 * rule identifier with a new IP list. A backend either accepts every call and
 * overwrites that one rule, or fails every call with its own message and
 * changes nothing.
 */
module Firewall {
  import opened Results
  import opened Store

  datatype Backend = Accepting | Failing(message: string)

  function ReplaceRule(rules: Table, backend: Backend, id: string, ips: seq<string>): (r: Result<Table, string>)
    ensures r.Success? <==> backend.Accepting?
    ensures r.Failure? ==> r.error == backend.message
    ensures r.Success? ==> id in r.value && r.value[id] == ips && AgreeExcept(rules, r.value, id)
  {
    match backend
    case Accepting => Success(rules[id := ips])
    case Failing(message) => Failure(message)
  }
}

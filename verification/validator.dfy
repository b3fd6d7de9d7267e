/**
 * Validation of a submitted allowlist: a JSON array of IPv4 addresses, each
 * optionally followed by a prefix length. Every entry must be a canonical
 * dotted quad with octets up to 255, its prefix must be at most 32 and at least
 * the policy's threshold, and the range it denotes must not reach the
 * unspecified address 0.0.0.0 or the loopback block 127/8 (section 3.2.1.3 of
 * RFC 1122) or the private blocks 10/8 and 192.168/16 (section 3 of RFC 1918).
 * One bad entry rejects the whole list; an accepted list is echoed unchanged.
 */
module Validator {
  import opened Results
  import opened Json
  import opened Ipv4

  /** The shortest prefix length accepted: above /20, which is rejected, and at most /24, which is accepted. */
  type PrefixThreshold = t: nat | 20 < t <= 24 witness 24

  /**
   * minPrefix: the shortest prefix length accepted.
   * rejectBlock172: also treat 172.16/12, the third block of RFC 1918, as private.
   */
  datatype Policy = Policy(minPrefix: PrefixThreshold, rejectBlock172: bool)

  /** The name of the request field every validation error is reported under. */
  const Field: string := "ips"

  datatype Reserved = Unspecified | Loopback | PrivateUse

  /** A reserved range "network/length". */
  datatype Block = Block(network: seq<nat>, length: nat, kind: Reserved)

  datatype EntryError =
    | NotAString
    | Malformed
    | OctetOutOfRange
    | PrefixOutOfRange
    | PrefixTooBroad
    | ReservedRange(kind: Reserved)

  datatype Problem = NotAList | BadEntry(index: nat, why: EntryError)

  datatype ValidationError = ValidationError(field: string, problem: Problem)

  predicate WellFormedBlocks(blocks: seq<Block>) {
    forall i :: 0 <= i < |blocks| ==> IsAddress(blocks[i].network) && blocks[i].length <= 32
  }

  /** The ranges no entry may reach, in the order they are checked. */
  function ReservedBlocks(policy: Policy): (blocks: seq<Block>)
    ensures WellFormedBlocks(blocks)
    ensures forall i :: 0 <= i < |blocks| ==> blocks[i].length >= 8
  {
    [ Block([0, 0, 0, 0], 32, Unspecified),
      Block([127, 0, 0, 0], 8, Loopback),
      Block([10, 0, 0, 0], 8, PrivateUse),
      Block([192, 168, 0, 0], 16, PrivateUse) ]
    + if policy.rejectBlock172 then [Block([172, 16, 0, 0], 12, PrivateUse)] else []
  }

  predicate Reaches(v: seq<bool>, p: nat, b: Block)
    requires |v| == 32 && p <= 32 && IsAddress(b.network) && b.length <= 32
  {
    Overlap(v, p, AddressBits(b.network), b.length)
  }

  /** The kind of the first block the range "v/p" reaches, if any: every block before it is unreached. */
  function FirstReached(v: seq<bool>, p: nat, blocks: seq<Block>): (r: Option<Reserved>)
    requires |v| == 32 && p <= 32 && WellFormedBlocks(blocks)
    ensures r.None? <==> forall i :: 0 <= i < |blocks| ==> !Reaches(v, p, blocks[i])
    ensures r.Some? ==>
              exists i :: && 0 <= i < |blocks| && Reaches(v, p, blocks[i]) && blocks[i].kind == r.value
                          && forall j :: 0 <= j < i ==> !Reaches(v, p, blocks[j])
  {
    if |blocks| == 0 then None
    else if Reaches(v, p, blocks[0]) then Some(blocks[0].kind)
    else
      var r := FirstReached(v, p, blocks[1..]);
      assert forall i :: 1 <= i < |blocks| ==> blocks[i] == blocks[1..][i - 1];
      if r.Some? then
        var k :| && 0 <= k < |blocks[1..]| && Reaches(v, p, blocks[1..][k]) && blocks[1..][k].kind == r.value
                 && forall j :: 0 <= j < k ==> !Reaches(v, p, blocks[1..][j]);
        assert forall j :: 0 <= j < k + 1 ==> !Reaches(v, p, blocks[j]);
        r
      else r
  }

  /** The checks on a parsed entry, in the order the error is chosen. */
  function CheckCidr(c: Cidr, policy: Policy): (r: Result<Cidr, EntryError>)
    requires |c.octets| == 4
    ensures r.Success? ==> r.value == c && OctetsInRange(c) && policy.minPrefix <= PrefixLength(c) <= 32
    ensures r.Failure? ==> r.error != NotAString && r.error != Malformed
  {
    if !OctetsInRange(c) then Failure(OctetOutOfRange)
    else if PrefixLength(c) > 32 then Failure(PrefixOutOfRange)
    else if PrefixLength(c) < policy.minPrefix then Failure(PrefixTooBroad)
    else match FirstReached(AddressBits(c.octets), PrefixLength(c), ReservedBlocks(policy))
      case Some(kind) => Failure(ReservedRange(kind))
      case None => Success(c)
  }

  /**
   * Validates one element of the submitted list and returns the canonical text
   * of the address specification, which is always the submitted text itself.
   */
  function CheckEntry(v: JValue, policy: Policy): (r: Result<string, EntryError>)
    ensures r.Success? ==> v == JString(r.value)
    ensures !v.JString? ==> r == Failure(NotAString)
  {
    match v
    case JString(s) =>
      (match Parse(s)
       case None => Failure(Malformed)
       case Some(c) =>
         match CheckCidr(c, policy)
         case Failure(e) => Failure(e)
         case Success(c') => Success(Format(c')))
    case _ => Failure(NotAString)
  }

  /** The verdict on the canonical text of a parsed entry is the verdict on the entry itself. */
  lemma CheckEntryOfFormat(c: Cidr, policy: Policy)
    requires |c.octets| == 4
    ensures CheckCidr(c, policy).Failure? ==> CheckEntry(JString(Format(c)), policy) == Failure(CheckCidr(c, policy).error)
    ensures CheckCidr(c, policy).Success? ==> CheckEntry(JString(Format(c)), policy) == Success(Format(c))
  {
    FormatParse(c);
  }

  /** Every address in a reserved block of the policy. */
  ghost predicate IsReservedAddress(u: seq<bool>, policy: Policy) {
    var blocks := ReservedBlocks(policy);
    exists i :: 0 <= i < |blocks| && Covers(AddressBits(blocks[i].network), blocks[i].length, u)
  }

  /**
   * What an acceptable entry is, stated without the check's procedure: it reads
   * as a dotted quad, octets and prefix are in range, the prefix is not broader
   * than the policy allows, and no address of the range it denotes is reserved.
   */
  ghost predicate Admissible(s: string, policy: Policy) {
    && Parse(s).Some?
    && var c := Parse(s).value;
    && OctetsInRange(c)
    && policy.minPrefix <= PrefixLength(c) <= 32
    && forall u :: Covers(AddressBits(c.octets), PrefixLength(c), u) ==> !IsReservedAddress(u, policy)
  }

  lemma FirstReachedMeaning(v: seq<bool>, p: nat, policy: Policy)
    requires |v| == 32 && p <= 32
    ensures FirstReached(v, p, ReservedBlocks(policy)).None?
        <==> forall u :: Covers(v, p, u) ==> !IsReservedAddress(u, policy)
  {
    var blocks := ReservedBlocks(policy);
    if FirstReached(v, p, blocks).None? {
      forall u | Covers(v, p, u)
        ensures !IsReservedAddress(u, policy)
      {
        forall i | 0 <= i < |blocks|
          ensures !Covers(AddressBits(blocks[i].network), blocks[i].length, u)
        {
          OverlapMeaning(v, p, AddressBits(blocks[i].network), blocks[i].length);
        }
      }
    } else {
      var i :| 0 <= i < |blocks| && Reaches(v, p, blocks[i]);
      OverlapMeaning(v, p, AddressBits(blocks[i].network), blocks[i].length);
      var u :| Covers(v, p, u) && Covers(AddressBits(blocks[i].network), blocks[i].length, u);
      assert IsReservedAddress(u, policy);
    }
  }

  /** The checks accept a parsed entry exactly when its range is admissible. */
  lemma CheckCidrMeaning(c: Cidr, policy: Policy)
    requires |c.octets| == 4
    ensures CheckCidr(c, policy).Success?
        <==> && OctetsInRange(c)
             && policy.minPrefix <= PrefixLength(c) <= 32
             && forall u :: Covers(AddressBits(c.octets), PrefixLength(c), u) ==> !IsReservedAddress(u, policy)
  {
    if OctetsInRange(c) && policy.minPrefix <= PrefixLength(c) <= 32 {
      FirstReachedMeaning(AddressBits(c.octets), PrefixLength(c), policy);
    }
  }

  /** The check accepts an entry exactly when it is a string and admissible. */
  lemma CheckEntryMeaning(v: JValue, policy: Policy)
    ensures CheckEntry(v, policy).Success? <==> v.JString? && Admissible(v.text, policy)
  {
    if v.JString? && Parse(v.text).Some? {
      var c := Parse(v.text).value;
      CheckCidrMeaning(c, policy);
      assert CheckEntry(v, policy).Success? <==> CheckCidr(c, policy).Success?;
    }
  }

  /** Gathers the per-element verdicts in order; the first failure decides the error. */
  function Collect(verdicts: seq<Result<string, EntryError>>): (r: Result<seq<string>, Problem>)
    ensures r.Success? <==> forall i :: 0 <= i < |verdicts| ==> verdicts[i].Success?
    ensures r.Success? ==> |r.value| == |verdicts|
    ensures r.Success? ==> forall i :: 0 <= i < |verdicts| ==> verdicts[i] == Success(r.value[i])
    ensures r.Failure? ==> && r.error.BadEntry?
                           && r.error.index < |verdicts|
                           && verdicts[r.error.index] == Failure(r.error.why)
                           && forall j :: 0 <= j < r.error.index ==> verdicts[j].Success?
  {
    if |verdicts| == 0 then Success([])
    else
      var tail := Collect(verdicts[1..]);
      assert forall i :: 1 <= i < |verdicts| ==> verdicts[i] == verdicts[1..][i - 1];
      if verdicts[0].Failure? then Failure(BadEntry(0, verdicts[0].error))
      else if tail.Failure? then Failure(BadEntry(tail.error.index + 1, tail.error.why))
      else Success([verdicts[0].value] + tail.value)
  }

  /**
   * Validates a submitted "ips" value. A scalar is refused outright; a list is
   * accepted only when every element is, and is then returned as submitted.
   * Otherwise the error names the first bad element and why it was refused.
   */
  function Validate(raw: JValue, policy: Policy): (r: Result<seq<string>, ValidationError>)
    ensures r.Failure? ==> r.error.field == Field
    ensures !raw.JArray? ==> r.Failure? && r.error.problem == NotAList
    ensures r.Success? ==> raw == StringArray(r.value)
    ensures r.Failure? && raw.JArray? ==>
              && r.error.problem.BadEntry?
              && r.error.problem.index < |raw.items|
              && CheckEntry(raw.items[r.error.problem.index], policy) == Failure(r.error.problem.why)
              && forall j :: 0 <= j < r.error.problem.index ==> CheckEntry(raw.items[j], policy).Success?
  {
    match raw
    case JArray(items) =>
      var verdicts := seq(|items|, i requires 0 <= i < |items| => CheckEntry(items[i], policy));
      (match Collect(verdicts)
       case Success(ips) =>
         assert forall i :: 0 <= i < |items| ==> items[i] == JString(ips[i]) by {
           forall i | 0 <= i < |items|
             ensures items[i] == JString(ips[i])
           {
             assert verdicts[i] == Success(ips[i]);
           }
         }
         Success(ips)
       case Failure(problem) =>
         assert forall j :: 0 <= j <= problem.index ==> verdicts[j] == CheckEntry(items[j], policy);
         Failure(ValidationError(Field, problem)))
    case _ => Failure(ValidationError(Field, NotAList))
  }

  /** A submission is accepted exactly when it is a list of admissible strings. */
  lemma ValidateMeaning(raw: JValue, policy: Policy)
    ensures Validate(raw, policy).Success?
        <==> raw.JArray? && forall i :: 0 <= i < |raw.items| ==>
               raw.items[i].JString? && Admissible(raw.items[i].text, policy)
  {
    if raw.JArray? {
      forall i | 0 <= i < |raw.items| {
        CheckEntryMeaning(raw.items[i], policy);
      }
    }
  }

  /** Whether a prefix reaches a reserved block depends on the first p bits only. */
  lemma {:induction false} FirstReachedIgnoresHostBits(v: seq<bool>, v': seq<bool>, p: nat, blocks: seq<Block>)
    requires |v| == 32 && |v'| == 32 && p <= 32 && v[..p] == v'[..p]
    requires WellFormedBlocks(blocks)
    ensures FirstReached(v, p, blocks) == FirstReached(v', p, blocks)
  {
    if |blocks| > 0 {
      OverlapIgnoresHostBits(v, v', p, AddressBits(blocks[0].network), blocks[0].length);
      FirstReachedIgnoresHostBits(v, v', p, blocks[1..]);
    }
  }

  /**
   * Two entries with the same prefix length that name the same network get the
   * same verdict: a prefix is judged by its length and network, never by the
   * host bits written after the network part ("200.20.30.40/24" is judged as
   * "200.20.30.0/24").
   */
  lemma HostBitsIrrelevant(c: Cidr, c': Cidr, policy: Policy)
    requires OctetsInRange(c) && OctetsInRange(c')
    requires c.prefix == c'.prefix && PrefixLength(c) <= 32
    requires AddressBits(c.octets)[..PrefixLength(c)] == AddressBits(c'.octets)[..PrefixLength(c)]
    ensures CheckCidr(c, policy).Success? == CheckCidr(c', policy).Success?
    ensures CheckCidr(c, policy).Failure? ==> CheckCidr(c, policy).error == CheckCidr(c', policy).error
  {
    var p := PrefixLength(c);
    FirstReachedIgnoresHostBits(AddressBits(c.octets), AddressBits(c'.octets), p, ReservedBlocks(policy));
    CheckCidrInRange(c, policy);
    CheckCidrInRange(c', policy);
  }

  /** For octets in range and a prefix of at most 32, only the prefix policy and the reserved blocks decide. */
  lemma CheckCidrInRange(c: Cidr, policy: Policy)
    requires OctetsInRange(c) && PrefixLength(c) <= 32
    ensures var r := FirstReached(AddressBits(c.octets), PrefixLength(c), ReservedBlocks(policy));
            CheckCidr(c, policy) == if PrefixLength(c) < policy.minPrefix then Failure(PrefixTooBroad)
                                    else if r.Some? then Failure(ReservedRange(r.value)) else Success(c)
  {
  }

  /**
   * The unspecified address, every loopback address and every address in
   * 10/8 or 192.168/16 is refused, whatever prefix follows it: for a
   * prefix within the policy the error names the reserved range.
   */
  lemma ReservedAddressesRejected(c: Cidr, policy: Policy)
    requires OctetsInRange(c) && PrefixLength(c) <= 32
    requires || c.octets == [0, 0, 0, 0]
             || c.octets[0] == 127
             || c.octets[0] == 10
             || (c.octets[0] == 192 && c.octets[1] == 168)
    ensures CheckCidr(c, policy).Failure?
    ensures PrefixLength(c) >= policy.minPrefix ==> CheckCidr(c, policy).error.ReservedRange?
  {
    var p := PrefixLength(c);
    if p >= policy.minPrefix {
      var v := AddressBits(c.octets);
      var blocks := ReservedBlocks(policy);
      assert v[..8] == OctetBits(c.octets[0]);
      assert v[..16] == OctetBits(c.octets[0]) + OctetBits(c.octets[1]);
      var i := if c.octets == [0, 0, 0, 0] then 0
               else if c.octets[0] == 127 then 1
               else if c.octets[0] == 10 then 2
               else 3;
      assert Reaches(v, p, blocks[i]);
    }
  }

  /** A range of at least eight bits whose first octet differs from a block's reaches no address of it. */
  lemma FirstOctetSeparates(v: seq<bool>, p: nat, n: nat, b: Block)
    requires |v| == 32 && 8 <= p <= 32 && IsAddress(b.network) && 8 <= b.length <= 32
    requires n <= 255 && v[..8] == OctetBits(n) && n != b.network[0]
    ensures !Reaches(v, p, b)
  {
    var w := AddressBits(b.network);
    var m := if p <= b.length then p else b.length;
    assert w[..8] == OctetBits(b.network[0]);
    assert v[..m][..8] == v[..8] && w[..m][..8] == w[..8];
    if OctetBits(n) == OctetBits(b.network[0]) {
      OctetBitsInjective(n, b.network[0]);
    }
  }

  /** A range of at least eight bits whose first octet starts no reserved block reaches none of them. */
  lemma OutsideReservedUnreached(c: Cidr, policy: Policy)
    requires OctetsInRange(c) && 8 <= PrefixLength(c) <= 32
    requires forall b :: b in ReservedBlocks(policy) ==> c.octets[0] != b.network[0]
    ensures FirstReached(AddressBits(c.octets), PrefixLength(c), ReservedBlocks(policy)) == None
  {
    var v := AddressBits(c.octets);
    var blocks := ReservedBlocks(policy);
    assert v[..8] == OctetBits(c.octets[0]);
    forall i | 0 <= i < |blocks|
      ensures !Reaches(v, PrefixLength(c), blocks[i])
    {
      assert blocks[i] in blocks;
      FirstOctetSeparates(v, PrefixLength(c), c.octets[0], blocks[i]);
    }
  }

  /**
   * An entry within the prefix policy whose first octet is none of the first
   * octets of the reserved blocks is accepted and echoed as written.
   */
  lemma OutsideReservedAccepted(c: Cidr, policy: Policy)
    requires OctetsInRange(c) && policy.minPrefix <= PrefixLength(c) <= 32
    requires forall b :: b in ReservedBlocks(policy) ==> c.octets[0] != b.network[0]
    ensures CheckEntry(JString(Format(c)), policy) == Success(Format(c))
  {
    OutsideReservedUnreached(c, policy);
    assert CheckCidr(c, policy) == Success(c);
    CheckEntryOfFormat(c, policy);
  }
}

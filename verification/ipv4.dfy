/**
 * IPv4 addresses in dotted-quad text with an optional "/prefix" suffix, their
 * 32-bit values, and the address ranges a prefix covers.
 */
module Ipv4 {
  import opened Results
  import opened Decimal
  import opened Text

  /**
   * A parsed address specification: four octet numbers and the prefix length if
   * one was written. The numbers are not range-checked here, so that an octet of
   * 300 is syntactically fine and rejected later for its value.
   */
  datatype Cidr = Cidr(octets: seq<nat>, prefix: Option<nat>)

  function Numerals(ns: seq<nat>): (r: seq<string>)
    ensures |r| == |ns|
  {
    seq(|ns|, i requires 0 <= i < |ns| => Numeral(ns[i]))
  }

  /** Each numeral of the list is canonical and denotes its number. */
  lemma NumeralsDenote(ns: seq<nat>)
    ensures forall i :: 0 <= i < |ns| ==> IsNumeral(Numerals(ns)[i]) && Value(Numerals(ns)[i]) == ns[i]
  {
    forall i | 0 <= i < |ns|
      ensures IsNumeral(Numerals(ns)[i]) && Value(Numerals(ns)[i]) == ns[i]
    {
      ValueOfNumeral(ns[i]);
    }
  }

  function Values(parts: seq<string>): (r: seq<nat>)
    requires forall i :: 0 <= i < |parts| ==> AllDigits(parts[i])
    ensures |r| == |parts|
  {
    seq(|parts|, i requires 0 <= i < |parts| => Value(parts[i]))
  }

  /** The canonical text of an address specification. */
  function Format(c: Cidr): string
    requires |c.octets| == 4
  {
    Join(Numerals(c.octets), '.') + match c.prefix
      case None => ""
      case Some(p) => "/" + Numeral(p)
  }

  /**
   * Reads "a.b.c.d" or "a.b.c.d/p" where every number is a canonical decimal
   * numeral. Whatever it accepts is already in canonical form: formatting the
   * result gives back exactly the input text.
   */
  function Parse(s: string): (r: Option<Cidr>)
    ensures r.Some? ==> |r.value.octets| == 4 && Format(r.value) == s
  {
    var halves := Split(s, '/');
    if |halves| > 2 then None
    else
      var quads := Split(halves[0], '.');
      if |quads| != 4 || !(forall i :: 0 <= i < 4 ==> IsNumeral(quads[i])) then None
      else if |halves| == 2 && !IsNumeral(halves[1]) then None
      else
        var c := Cidr(Values(quads), if |halves| == 2 then Some(Value(halves[1])) else None);
        ParseRebuilds(s, halves, quads);
        Some(c)
  }

  /** The numbers read from canonical pieces format back to the text the pieces came from. */
  lemma ParseRebuilds(s: string, halves: seq<string>, quads: seq<string>)
    requires halves == Split(s, '/') && |halves| <= 2
    requires quads == Split(halves[0], '.') && |quads| == 4
    requires forall i :: 0 <= i < 4 ==> IsNumeral(quads[i])
    requires forall i :: 0 <= i < |quads| ==> AllDigits(quads[i])
    requires |halves| == 2 ==> IsNumeral(halves[1])
    ensures Format(Cidr(Values(quads), if |halves| == 2 then Some(Value(halves[1])) else None)) == s
  {
    CanonicalNumerals(quads);
    JoinHalves(halves, '/');
    if |halves| == 2 {
      NumeralOfValue(halves[1]);
    }
  }

  /** Canonical numerals are the numerals of their own values. */
  lemma CanonicalNumerals(parts: seq<string>)
    requires forall i :: 0 <= i < |parts| ==> IsNumeral(parts[i]) && AllDigits(parts[i])
    ensures Numerals(Values(parts)) == parts
  {
    forall i | 0 <= i < |parts|
      ensures Numerals(Values(parts))[i] == parts[i]
    {
      NumeralOfValue(parts[i]);
    }
  }

  lemma NumeralsAvoid(ns: seq<nat>, c: char)
    requires !IsDigit(c)
    ensures Free(Numerals(ns), c)
  {
    NumeralsDenote(ns);
  }

  /** The dotted part of the canonical text splits back into the octets' numerals. */
  lemma AddressSplits(octets: seq<nat>)
    requires |octets| == 4
    ensures Split(Join(Numerals(octets), '.'), '.') == Numerals(octets)
    ensures forall i :: 0 <= i < |Numerals(octets)| ==> IsNumeral(Numerals(octets)[i]) && AllDigits(Numerals(octets)[i])
    ensures Values(Numerals(octets)) == octets
  {
    NumeralsAvoid(octets, '.');
    SplitJoin(Numerals(octets), '.');
    NumeralsDenote(octets);
  }

  /** The canonical text splits at '/' into the dotted part and, if present, the prefix numeral. */
  lemma FormatHalves(c: Cidr)
    requires |c.octets| == 4
    ensures var addr := Join(Numerals(c.octets), '.');
            Split(Format(c), '/') == match c.prefix
              case None => [addr]
              case Some(p) => [addr, Numeral(p)]
  {
    var addr := Join(Numerals(c.octets), '.');
    NumeralsAvoid(c.octets, '/');
    JoinAvoids(Numerals(c.octets), '.', '/');
    match c.prefix {
      case None =>
        assert Format(c) == addr;
        assert Free([addr], '/');
        SplitJoin([addr], '/');
      case Some(p) =>
        ValueOfNumeral(p);
        var halves := [addr, Numeral(p)];
        assert Free(halves, '/');
        assert Join(halves, '/') == Format(c);
        SplitJoin(halves, '/');
    }
  }

  /** Parsing the canonical text of any four-number specification gives it back. */
  lemma FormatParse(c: Cidr)
    requires |c.octets| == 4
    ensures Parse(Format(c)) == Some(c)
  {
    AddressSplits(c.octets);
    FormatHalves(c);
    if c.prefix.Some? {
      ValueOfNumeral(c.prefix.value);
    }
  }

  /** The canonical text spelled out: four numerals with dots between them, then the prefix if any. */
  lemma FormatSpelled(c: Cidr)
    requires |c.octets| == 4
    ensures var o := c.octets;
            var address := Numeral(o[0]) + "." + Numeral(o[1]) + "." + Numeral(o[2]) + "." + Numeral(o[3]);
            Format(c) == match c.prefix
              case None => address
              case Some(p) => address + "/" + Numeral(p)
  {
    var ns := Numerals(c.octets);
    assert Join(ns[3..], '.') == ns[3];
    assert ns[2..][1..] == ns[3..];
    assert Join(ns[2..], '.') == ns[2] + "." + ns[3];
    assert ns[1..][1..] == ns[2..];
    assert Join(ns[1..], '.') == ns[1] + "." + ns[2] + "." + ns[3];
    assert Join(ns, '.') == ns[0] + "." + ns[1] + "." + ns[2] + "." + ns[3];
  }

  /** Texts that parse to the same specification are the same text. */
  lemma ParseInjective(s: string, t: string)
    requires Parse(s).Some? && Parse(s) == Parse(t)
    ensures s == t
  {
  }

  // ---------------------------------------------------------------------------
  // Address values and ranges

  /** Four numbers, each a valid octet. */
  predicate IsAddress(octets: seq<nat>) {
    |octets| == 4 && forall i :: 0 <= i < 4 ==> octets[i] <= 255
  }

  predicate OctetsInRange(c: Cidr) {
    IsAddress(c.octets)
  }

  /** The prefix length in force: an address without one stands for itself, a /32. */
  function PrefixLength(c: Cidr): nat {
    match c.prefix
    case None => 32
    case Some(p) => p
  }

  function Pow2(k: nat): (r: nat)
    ensures r >= 1
  {
    if k == 0 then 1 else 2 * Pow2(k - 1)
  }

  /** The k bits of a number below 2^k, most significant first. */
  function Bits(n: nat, k: nat): (bits: seq<bool>)
    requires n < Pow2(k)
    ensures |bits| == k
  {
    if k == 0 then []
    else
      var w := Pow2(k - 1);
      if n >= w then [true] + Bits(n - w, k - 1) else [false] + Bits(n, k - 1)
  }

  /** The number a bit sequence spells, most significant bit first. */
  function BitsValue(bits: seq<bool>): nat {
    if |bits| == 0 then 0
    else (if bits[0] then Pow2(|bits| - 1) else 0) + BitsValue(bits[1..])
  }

  /** The bits of a number spell that number back. */
  lemma {:induction false} BitsValueOfBits(n: nat, k: nat)
    requires n < Pow2(k)
    ensures BitsValue(Bits(n, k)) == n
  {
    if k > 0 {
      var w := Pow2(k - 1);
      var m := if n >= w then n - w else n;
      BitsValueOfBits(m, k - 1);
      assert Bits(n, k)[1..] == Bits(m, k - 1);
    }
  }

  /** The eight bits of an octet. */
  function OctetBits(n: nat): (bits: seq<bool>)
    requires n <= 255
    ensures |bits| == 8
  {
    assert Pow2(8) == 256;
    Bits(n, 8)
  }

  /** Different octets have different bits. */
  lemma OctetBitsInjective(a: nat, b: nat)
    requires a <= 255 && b <= 255 && OctetBits(a) == OctetBits(b)
    ensures a == b
  {
    BitsValueOfBits(a, 8);
    BitsValueOfBits(b, 8);
  }

  /** The 32 bits of an address, first octet first. */
  function AddressBits(octets: seq<nat>): (bits: seq<bool>)
    requires IsAddress(octets)
    ensures |bits| == 32
  {
    OctetBits(octets[0]) + OctetBits(octets[1]) + OctetBits(octets[2]) + OctetBits(octets[3])
  }

  /** The range "v/p" holds the 32-bit addresses that agree with v on the first p bits. */
  ghost predicate Covers(v: seq<bool>, p: nat, u: seq<bool>)
    requires |v| == 32 && p <= 32
  {
    |u| == 32 && u[..p] == v[..p]
  }

  /** Whether the ranges "v/p" and "w/q" share an address: they agree on the shorter prefix. */
  predicate Overlap(v: seq<bool>, p: nat, w: seq<bool>, q: nat)
    requires |v| == 32 && |w| == 32 && p <= 32 && q <= 32
  {
    var m := if p <= q then p else q;
    v[..m] == w[..m]
  }

  /** Two ranges overlap exactly when some address lies in both. */
  lemma OverlapMeaning(v: seq<bool>, p: nat, w: seq<bool>, q: nat)
    requires |v| == 32 && |w| == 32 && p <= 32 && q <= 32
    ensures Overlap(v, p, w, q) <==> exists u :: Covers(v, p, u) && Covers(w, q, u)
  {
    if Overlap(v, p, w, q) {
      if p <= q {
        assert v[..p] == w[..q][..p];
        assert Covers(v, p, w) && Covers(w, q, w);
      } else {
        assert w[..q] == v[..p][..q];
        assert Covers(v, p, v) && Covers(w, q, v);
      }
    }
    if u :| Covers(v, p, u) && Covers(w, q, u) {
      var m := if p <= q then p else q;
      assert v[..m] == u[..p][..m];
      assert u[..p][..m] == u[..m] == u[..q][..m];
      assert u[..q][..m] == w[..m];
    }
  }

  /** Whether a range overlaps another depends only on its first p bits, never on its host bits. */
  lemma OverlapIgnoresHostBits(v: seq<bool>, v': seq<bool>, p: nat, w: seq<bool>, q: nat)
    requires |v| == 32 && |v'| == 32 && |w| == 32 && p <= 32 && q <= 32
    requires v[..p] == v'[..p]
    ensures Overlap(v, p, w, q) == Overlap(v', p, w, q)
  {
    var m := if p <= q then p else q;
    assert v[..m] == v[..p][..m] == v'[..p][..m] == v'[..m];
  }
}

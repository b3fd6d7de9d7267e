/** The part of a decoded JSON request body that the allowlist endpoint looks at. */
module Json {

  datatype JValue =
    | JString(text: string)
    | JNumber(number: int)
    | JArray(items: seq<JValue>)

  /** The JSON array of the given strings, in order. */
  function StringArray(texts: seq<string>): (v: JValue)
    ensures v.JArray? && |v.items| == |texts|
    ensures forall i :: 0 <= i < |texts| ==> v.items[i] == JString(texts[i])
  {
    JArray(seq(|texts|, i requires 0 <= i < |texts| => JString(texts[i])))
  }

  /** Different string lists are different JSON arrays. */
  lemma StringArrayInjective(a: seq<string>, b: seq<string>)
    requires StringArray(a) == StringArray(b)
    ensures a == b
  {
    assert |a| == |b|;
    forall i | 0 <= i < |a|
      ensures a[i] == b[i]
    {
      assert StringArray(a).items[i] == StringArray(b).items[i];
    }
  }
}

/** The adapter contract version (crates/ward-agent-adapter/src/contract.rs). */
module ContractVersions {
  import opened Wrappers
  import opened Decimals

  const U16_MAX := 65535

  type U16 = n: nat | n <= U16_MAX

  datatype ContractVersion = ContractVersion(major: U16, minor: U16)

  datatype ContractVersionError = Malformed

  /** `str::split_once('.')`: the text before and after the first dot. */
  function SplitAtDot(s: string): (r: Option<(string, string)>)
    ensures r.Some? ==> s == r.value.0 + "." + r.value.1 && '.' !in r.value.0
    ensures r.None? <==> '.' !in s
  {
    if s == [] then None
    else if s[0] == '.' then Some(([], s[1..]))
    else
      var rest := SplitAtDot(s[1..]);
      if rest.None? then None else Some(([s[0]] + rest.value.0, rest.value.1))
  }

  /** One component: the canonical spelling of a 16-bit number. */
  function Number(part: string): Option<U16> {
    if Canonical(part) && Value(part) <= U16_MAX then Some(Value(part)) else None
  }

  function Parse(text: string): Result<ContractVersion, ContractVersionError> {
    var parts := SplitAtDot(text);
    if parts.None? then Err(Malformed) else
    var major := Number(parts.value.0);
    if major.None? then Err(Malformed) else
    var minor := Number(parts.value.1);
    if minor.None? then Err(Malformed) else
    Ok(ContractVersion(major.value, minor.value))
  }

  function Print(v: ContractVersion): string {
    Digits(v.major) + "." + Digits(v.minor)
  }

  /** The first dot is where it is: a text decomposes in one way. */
  lemma {:induction false} SplitOfJoin(a: string, b: string)
    requires '.' !in a
    ensures SplitAtDot(a + "." + b) == Some((a, b))
  {
    var s := a + "." + b;
    if a != [] {
      assert s[1..] == a[1..] + "." + b;
      SplitOfJoin(a[1..], b);
      assert [a[0]] + a[1..] == a;
    } else {
      assert s[1..] == b;
    }
  }

  /** The number before the first dot is the major version, the one after it the minor. */
  lemma PrintShowsMajorFirst(v: ContractVersion)
    ensures SplitAtDot(Print(v)).Some?
    ensures var parts := SplitAtDot(Print(v)).value;
            Canonical(parts.0) && Value(parts.0) == v.major && Canonical(parts.1) && Value(parts.1) == v.minor
  {
    ValueOfDigits(v.major);
    ValueOfDigits(v.minor);
    assert forall i | 0 <= i < |Digits(v.major)| :: IsDigit(Digits(v.major)[i]);
    SplitOfJoin(Digits(v.major), Digits(v.minor));
  }

  /** Parsing and printing undo each other over all texts and all versions, so no two spellings
      denote one version. */
  lemma ParseIsInverseOfPrint(text: string, v: ContractVersion)
    ensures Parse(text) == Ok(v) <==> text == Print(v)
  {
    if text == Print(v) {
      ValueOfDigits(v.major);
      ValueOfDigits(v.minor);
      assert forall i | 0 <= i < |Digits(v.major)| :: IsDigit(Digits(v.major)[i]);
      assert '.' !in Digits(v.major);
      SplitOfJoin(Digits(v.major), Digits(v.minor));
    }
    if Parse(text) == Ok(v) {
      var parts := SplitAtDot(text).value;
      DigitsOfValue(parts.0);
      DigitsOfValue(parts.1);
    }
  }
}

/** The `Call` entity: a request from a table for the waiter or for the bill,
    and the enum of request kinds with the way the controller parses it. */
module CallEntity {
  import opened Common
  import opened JavaString
  import opened TableEntity

  /** `CallType`, stored by name. */
  datatype CallType = WAITER | BILL

  /** A call: generated id, the calling table, its kind, whether staff have
      dealt with it, and the instant it was made. */
  datatype Call = Call(id: int, table: Table, kind: CallType, resolved: bool, createdAt: int)

  /** The enum constant's name, which is also its `toString`. */
  function TypeName(t: CallType): (name: string)
    ensures |name| > 0
  {
    match t
    case WAITER => "WAITER"
    case BILL => "BILL"
  }

  /** `CallType.valueOf(s.toUpperCase())`, with the `IllegalArgumentException`
      for a name that is no constant as `None`. */
  function ParseCallType(s: string): (r: Option<CallType>)
    ensures r.Some? <==> UpperCase(s) == "WAITER" || UpperCase(s) == "BILL"
    ensures r.Some? ==> UpperCase(s) == TypeName(r.value)
  {
    var upper := UpperCase(s);
    if upper == "WAITER" then Some(WAITER)
    else if upper == "BILL" then Some(BILL)
    else None
  }

  /** Upper-casing an upper-case ASCII word gives it back. */
  lemma UpperCaseOfUpper(s: string)
    requires forall k | 0 <= k < |s| :: 'A' <= s[k] <= 'Z'
    ensures UpperCase(s) == s
  {
  }

  /** Every constant's name parses back to it. */
  lemma ParseTypeNameRoundTrip(t: CallType)
    ensures ParseCallType(TypeName(t)) == Some(t)
  {
    UpperCaseOfUpper(TypeName(t));
  }

  /** The lower-case names the client page sends parse to the two kinds. */
  lemma ParseClientNames()
    ensures ParseCallType("waiter") == Some(WAITER)
    ensures ParseCallType("bill") == Some(BILL)
  {
    UpperWaiter();
    UpperBill();
  }

  lemma UpperWaiter()
    ensures UpperCase("waiter") == "WAITER"
  {
    assert |UpperCase("waiter")| == 6;
  }

  lemma UpperBill()
    ensures UpperCase("bill") == "BILL"
  {
    assert |UpperCase("bill")| == 4;
  }

  /** Parsing ignores letter case: two strings that differ only in the case
      of ASCII letters parse alike. */
  lemma ParseIgnoresCase(s: string, t: string)
    requires |s| == |t|
    requires forall k | 0 <= k < |s| :: UpperChar(s[k]) == UpperChar(t[k])
    ensures ParseCallType(s) == ParseCallType(t)
  {
    assert UpperCase(s) == UpperCase(t);
  }
}

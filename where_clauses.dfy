/**
 * The attribute queries the scripts build as text: `<field>=<id>`, where the
 * ID is written in decimal by Python's str().  The query engine is modelled
 * for this one shape of clause only.
 */
module WhereClauses {
  import opened Results

  predicate IsDigit(c: char) {
    '0' <= c <= '9'
  }

  function DigitChar(d: nat): (c: char)
    requires d < 10
    ensures IsDigit(c) && c as int - '0' as int == d
  {
    ('0' as int + d) as char
  }

  /** Python's str() of a non-negative integer: decimal digits, no sign, no leading zero. */
  function Decimal(n: nat): (s: string)
    ensures |s| > 0
    ensures forall i :: 0 <= i < |s| ==> IsDigit(s[i])
    ensures (s[0] == '0') == (n == 0)
  {
    if n < 10 then [DigitChar(n)] else Decimal(n / 10) + [DigitChar(n % 10)]
  }

  /** Reads a non-empty string of decimal digits; anything else is not a number. */
  function ParseDecimal(s: string): Option<nat>
  {
    if s == [] || !IsDigit(s[|s| - 1]) then None
    else
      var d := (s[|s| - 1] as int - '0' as int) as nat;
      if |s| == 1 then Some(d)
      else
        match ParseDecimal(s[..|s| - 1])
        case None => None
        case Some(p) => Some(p * 10 + d)
  }

  lemma {:induction false} ParseDecimalInvertsDecimal(n: nat)
    ensures ParseDecimal(Decimal(n)) == Some(n)
  {
    if n >= 10 {
      var s := Decimal(n);
      assert s[..|s| - 1] == Decimal(n / 10);
      ParseDecimalInvertsDecimal(n / 10);
    }
  }

  /** The position of the first occurrence of c in s. */
  function IndexOf(s: string, c: char): (r: Option<nat>)
    ensures r.None? ==> c !in s
    ensures r.Some? ==> r.value < |s| && s[r.value] == c && c !in s[..r.value]
  {
    if s == [] then None
    else if s[0] == c then Some(0)
    else
      match IndexOf(s[1..], c)
      case None => None
      case Some(k) =>
        assert s[..k + 1] == [s[0]] + s[1..][..k];
        Some(k + 1)
  }

  /** The selection query `field=id` that both scripts build from a field name and an ID. */
  function WhereClause(field: string, id: nat): string {
    field + "=" + Decimal(id)
  }

  /** Splits a clause at its first '=' into a field name and a decimal ID. */
  function ParseWhere(clause: string): Option<(string, nat)> {
    match IndexOf(clause, '=')
    case None => None
    case Some(k) =>
      match ParseDecimal(clause[k + 1..])
      case None => None
      case Some(n) => Some((clause[..k], n))
  }

  lemma ParseWhereInvertsWhereClause(field: string, id: nat)
    requires '=' !in field
    ensures ParseWhere(WhereClause(field, id)) == Some((field, id))
  {
    var clause := WhereClause(field, id);
    assert clause[|field|] == '=';
    var k := IndexOf(clause, '=').value;
    assert k == |field|;
    assert clause[k + 1..] == Decimal(id);
    assert clause[..k] == field;
    ParseDecimalInvertsDecimal(id);
  }
}

/**
 * Decimal rendering of indices and splitting of labels at '_', the two
 * string operations behind site labels such as "Bridge_3_7".
 */
module Text {

  predicate IsDigit(c: char)
  {
    '0' <= c <= '9'
  }

  function DigitChar(d: nat): (c: char)
    requires d < 10
    ensures IsDigit(c)
  {
    (('0' as int) + d) as char
  }

  function DigitValue(c: char): (d: nat)
    requires IsDigit(c)
    ensures d < 10
  {
    (c as int) - ('0' as int)
  }

  /** Python's `str` of a non-negative integer: its decimal digits. */
  function NatToString(n: nat): (s: string)
    ensures |s| >= 1
    ensures forall k :: 0 <= k < |s| ==> IsDigit(s[k])
    // no leading zero: the first digit is '0' only for zero itself, which is one digit long
    ensures s[0] == '0' <==> n == 0
    ensures |s| > 1 ==> s[0] != '0'
    decreases n
  {
    if n < 10 then [DigitChar(n)] else NatToString(n / 10) + [DigitChar(n % 10)]
  }

  /** The value of a string of decimal digits. */
  function ParseNat(s: string): nat
    requires forall k :: 0 <= k < |s| ==> IsDigit(s[k])
  {
    if s == [] then 0 else ParseNat(s[..|s| - 1]) * 10 + DigitValue(s[|s| - 1])
  }

  /** Reading back a rendered index gives the index. */
  lemma {:induction false} ParseNatToString(n: nat)
    ensures ParseNat(NatToString(n)) == n
    decreases n
  {
    var s := NatToString(n);
    if n < 10 {
      assert s[..0] == [];
    } else {
      ParseNatToString(n / 10);
      assert s[..|s| - 1] == NatToString(n / 10);
    }
  }

  /** Different indices render differently. */
  lemma NatToStringInjective(a: nat, b: nat)
    requires NatToString(a) == NatToString(b)
    ensures a == b
  {
    ParseNatToString(a);
    ParseNatToString(b);
  }

  /** A rendered index contains no separator. */
  lemma NatToStringHasNoSeparator(n: nat)
    ensures '_' !in NatToString(n)
  {
    var s := NatToString(n);
    assert !IsDigit('_');
    assert forall c :: c in s ==> IsDigit(c);
  }

  /** `s.split('_')`: the fields between separators; never empty. */
  function Fields(s: string): (r: seq<string>)
    ensures |r| >= 1
  {
    if |s| == 0 then [""]
    else if s[0] == '_' then [""] + Fields(s[1..])
    else
      var rest := Fields(s[1..]);
      [[s[0]] + rest[0]] + rest[1..]
  }

  /** A string without a separator is a single field. */
  lemma {:induction false} FieldsOfPlain(x: string)
    requires '_' !in x
    ensures Fields(x) == [x]
  {
    if |x| > 0 {
      assert x == [x[0]] + x[1..];
      FieldsOfPlain(x[1..]);
    }
  }

  /** The first separator ends the first field. */
  lemma {:induction false} FieldsAfterSeparator(x: string, y: string)
    requires '_' !in x
    ensures Fields(x + "_" + y) == [x] + Fields(y)
  {
    if |x| == 0 {
      assert x + "_" + y == "_" + y;
      assert ("_" + y)[1..] == y;
    } else {
      var s := x + "_" + y;
      assert s[1..] == x[1..] + "_" + y;
      assert x == [x[0]] + x[1..];
      FieldsAfterSeparator(x[1..], y);
    }
  }
}

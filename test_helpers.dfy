/** The string helpers of the state-table tests: the key, field and value
    names the producers write, the number a consumer reads back from them,
    and the check a consumer applies to a popped entry. */
module TestHelpers {
  import opened FieldValues

  /** MAX_FIELDS_DIV: a producer writes one more field every 30 keys. */
  const MAX_FIELDS_DIV: int := 30

  /** C++ integer division, which truncates toward zero. */
  function TruncDiv(a: int, b: int): int
    requires b > 0
  {
    if a >= 0 then a / b else -((-a) / b)
  }

  /** getMaxFields: the number of fields written for key number i. */
  function GetMaxFields(i: int): (r: int)
    ensures r >= 1 <==> i > -MAX_FIELDS_DIV
    ensures i >= 0 ==> MAX_FIELDS_DIV * (r - 1) <= i < MAX_FIELDS_DIV * r
  {
    TruncDiv(i, MAX_FIELDS_DIV) + 1
  }

  /** IsDigit: an ASCII decimal digit. */
  predicate IsDigit(ch: char)
  {
    '0' <= ch <= '9'
  }

  predicate AllDigits(s: string)
  {
    forall j :: 0 <= j < |s| ==> IsDigit(s[j])
  }

  function DigitChar(d: nat): (c: char)
    requires d < 10
  {
    (48 + d) as char
  }

  function DigitValue(c: char): nat
    requires IsDigit(c)
  {
    c as int - 48
  }

  /** The number a run of decimal digits spells, most significant first. */
  function DigitsValue(s: string): nat
    requires AllDigits(s)
    decreases |s|
  {
    if s == [] then 0 else DigitsValue(s[..|s| - 1]) * 10 + DigitValue(s[|s| - 1])
  }

  /** std::to_string on a non-negative number: its decimal digits, without
      leading zeros. */
  function NatToString(n: nat): (r: string)
    ensures r != [] && AllDigits(r) && DigitsValue(r) == n
    ensures n == 0 ==> r == "0"
    ensures n > 0 ==> r[0] != '0'
  {
    if n < 10 then
      var r := [DigitChar(n)];
      assert r[..0] == [];
      r
    else
      var prefix := NatToString(n / 10);
      var r := prefix + [DigitChar(n % 10)];
      assert r[..|r| - 1] == prefix;
      r
  }

  /** std::to_string on any int: a minus sign before the digits when
      negative. */
  function IntToString(i: int): string
  {
    if i < 0 then "-" + NatToString(-i) else NatToString(i)
  }

  /** key(i) */
  function Key(i: int): string
  {
    "key " + IntToString(i)
  }

  /** field(i) */
  function Field(i: int): string
  {
    "field " + IntToString(i)
  }

  /** value(i): empty for 0. */
  function Value(i: int): string
  {
    if i == 0 then "" else "value " + IntToString(i)
  }

  /** find_if(str, IsDigit) as an index: the position of the first digit, or
      the length when there is none. */
  function FindDigit(s: string): (r: nat)
    ensures r <= |s|
    ensures forall j :: 0 <= j < r ==> !IsDigit(s[j])
    ensures r < |s| ==> IsDigit(s[r])
  {
    if s == [] || IsDigit(s[0]) then 0 else 1 + FindDigit(s[1..])
  }

  /** The longest run of digits at the start of a string (what `is >> ret`
      consumes once it stands on a digit). */
  function DigitRun(s: string): (r: string)
    ensures |r| <= |s| && r == s[..|r|]
    ensures AllDigits(r)
    ensures |r| < |s| ==> !IsDigit(s[|r|])
  {
    if s == [] || !IsDigit(s[0]) then []
    else
      var r := [s[0]] + DigitRun(s[1..]);
      assert forall j :: 1 <= j < |r| ==> r[j] == s[1..][j - 1];
      r
  }

  /** readNumberAtEOL: 0 for the empty string, otherwise the number spelled by
      the digit run that starts at the first digit (0 when there is no
      digit). */
  function ReadNumberAtEOL(s: string): nat
  {
    if s == [] then 0 else DigitsValue(DigitRun(s[FindDigit(s)..]))
  }

  /** The EXPECT_TRUE(is) inside readNumberAtEOL: the stream read a number,
      i.e. the string is empty or holds a digit. */
  predicate ReadNumberAtEOLSucceeds(s: string)
  {
    s == [] || FindDigit(s) < |s|
  }

  function Abs(i: int): nat
  {
    if i < 0 then -i else i
  }

  /** A number written after a digit-free prefix reads back as its absolute
      value: the sign is not a digit and is skipped. */
  lemma ReadPrefixedNumber(p: string, i: int)
    requires forall j :: 0 <= j < |p| ==> !IsDigit(p[j])
    ensures ReadNumberAtEOLSucceeds(p + IntToString(i))
    ensures ReadNumberAtEOL(p + IntToString(i)) == Abs(i)
  {
    var digits := NatToString(Abs(i));
    var s := p + IntToString(i);
    var t := if i < 0 then |p| + 1 else |p|;
    assert s[t..] == digits;
    assert IsDigit(s[t]) by { assert s[t] == digits[0]; }
    forall j | 0 <= j < t ensures !IsDigit(s[j]) {
      if j < |p| { assert s[j] == p[j]; } else { assert s[j] == '-'; }
    }
    assert FindDigit(s) == t;
    assert DigitRun(digits) == digits;
  }

  /** readNumberAtEOL(key(i)), readNumberAtEOL(field(i)) and
      readNumberAtEOL(value(i)) give back i for every i >= 0 (and -i for a
      negative i). */
  lemma ReadKey(i: int)
    ensures ReadNumberAtEOLSucceeds(Key(i)) && ReadNumberAtEOL(Key(i)) == Abs(i)
  {
    var p := "key ";
    assert forall j :: 0 <= j < |p| ==> !IsDigit(p[j]);
    ReadPrefixedNumber(p, i);
  }

  lemma ReadField(i: int)
    ensures ReadNumberAtEOLSucceeds(Field(i)) && ReadNumberAtEOL(Field(i)) == Abs(i)
  {
    var p := "field ";
    assert forall j :: 0 <= j < |p| ==> !IsDigit(p[j]);
    ReadPrefixedNumber(p, i);
  }

  lemma ReadValue(i: int)
    ensures ReadNumberAtEOLSucceeds(Value(i)) && ReadNumberAtEOL(Value(i)) == Abs(i)
  {
    if i != 0 {
      var p := "value ";
      assert forall j :: 0 <= j < |p| ==> !IsDigit(p[j]);
      ReadPrefixedNumber(p, i);
    }
  }

  /** Distinct non-negative numbers give distinct key and field names. */
  lemma KeyInjective(i: nat, j: nat)
    requires Key(i) == Key(j)
    ensures i == j
  {
    ReadKey(i);
    ReadKey(j);
  }

  lemma FieldInjective(i: nat, j: nat)
    requires Field(i) == Field(j)
    ensures i == j
  {
    ReadField(i);
    ReadField(j);
  }

  /** The fields a producer writes for a key with n fields: position j holds
      field(j) with value(j). */
  function FieldsFor(n: nat): seq<FieldValue>
  {
    seq(n, j requires 0 <= j < n => FieldValue(Field(j), Value(j)))
  }

  /** field(j) names differ for different j, so these lists repeat no field. */
  lemma FieldsForNoDup(n: nat)
    ensures NoDupFields(FieldsFor(n))
  {
    var fs := FieldsFor(n);
    forall i, j | 0 <= i < j < n ensures fs[i].field != fs[j].field {
      if fs[i].field == fs[j].field { FieldInjective(i, j); }
    }
  }

  /** Everything validateFields expects of a popped entry: the key's number
      reads, there are getMaxFields(number) fields, and the field and value at
      position i both read back as i. */
  predicate FieldsValid(key: string, f: seq<FieldValue>)
  {
    && ReadNumberAtEOLSucceeds(key)
    && |f| == GetMaxFields(ReadNumberAtEOL(key))
    && forall i :: 0 <= i < |f| ==> FieldValid(f[i], i)
  }

  predicate FieldValid(fv: FieldValue, i: nat)
  {
    && ReadNumberAtEOLSucceeds(fv.field) && ReadNumberAtEOL(fv.field) == i
    && ReadNumberAtEOLSucceeds(fv.value) && ReadNumberAtEOL(fv.value) == i
  }

  /** validateFields: reports whether every expectation holds. */
  method ValidateFields(key: string, f: seq<FieldValue>) returns (ok: bool)
    ensures ok <==> FieldsValid(key, f)
  {
    var keyOk := ReadNumberAtEOLSucceeds(key);
    var maxNumOfFields := GetMaxFields(ReadNumberAtEOL(key));
    ok := keyOk && maxNumOfFields == |f|;
    var i := 0;
    var fieldsOk := true;
    while i < |f|
      invariant 0 <= i <= |f|
      invariant fieldsOk <==> forall j :: 0 <= j < i ==> FieldValid(f[j], j)
    {
      var fv := f[i];
      var fieldRead := ReadNumberAtEOLSucceeds(fv.field) && ReadNumberAtEOL(fv.field) == i;
      var valueRead := ReadNumberAtEOLSucceeds(fv.value) && ReadNumberAtEOL(fv.value) == i;
      fieldsOk := fieldsOk && fieldRead && valueRead;
      i := i + 1;
    }
    ok := ok && fieldsOk;
  }

  /** An entry written the way the producers write it passes validateFields. */
  lemma ProducedFieldsValid(key: string)
    requires ReadNumberAtEOLSucceeds(key)
    ensures GetMaxFields(ReadNumberAtEOL(key)) >= 1
    ensures FieldsValid(key, FieldsFor(GetMaxFields(ReadNumberAtEOL(key)) as nat))
  {
    var f := FieldsFor(GetMaxFields(ReadNumberAtEOL(key)) as nat);
    forall i | 0 <= i < |f| ensures FieldValid(f[i], i) {
      ReadField(i);
      ReadValue(i);
    }
  }
}

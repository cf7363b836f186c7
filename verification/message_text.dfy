/**
 * The diagnostic text of an engine message, `MessageBase(type="<type>", id=<id>)`,
 * and a reader that recovers the id from it.
 */
module MessageText {
  import opened Wrappers

  const DESCRIPTION_HEAD: string := "MessageBase(type=\""
  const ID_LABEL: string := "\", id="

  predicate IsDigit(c: char) {
    '0' <= c <= '9'
  }

  predicate AllDigits(s: string) {
    forall i :: 0 <= i < |s| ==> IsDigit(s[i])
  }

  function DigitChar(d: nat): (c: char)
    requires d < 10
    ensures IsDigit(c) && c as int - '0' as int == d
  {
    ('0' as int + d) as char
  }

  /** The decimal digits of `n`, most significant first, without leading zeros. */
  function NatText(n: nat): (s: string)
    ensures |s| >= 1 && AllDigits(s)
    ensures n > 0 ==> s[0] != '0'
    ensures |s| > 1 ==> s[0] != '0'
  {
    if n < 10 then [DigitChar(n)] else NatText(n / 10) + [DigitChar(n % 10)]
  }

  /** The value of a string of decimal digits. */
  function DigitsValue(s: string): nat
    requires AllDigits(s)
  {
    if s == [] then 0 else 10 * DigitsValue(s[..|s| - 1]) + (s[|s| - 1] as int - '0' as int)
  }

  /** Kotlin's `Int.toString()`: a minus sign for negative values, then the digits of the magnitude. */
  function IntText(n: int): (s: string)
    ensures |s| >= 1 && '=' !in s && ')' !in s
    ensures (s[0] == '-') <==> n < 0
    ensures n < 0 ==> |s| >= 2 && AllDigits(s[1..]) && (|s| > 2 ==> s[1] != '0')
    ensures n >= 0 ==> AllDigits(s) && (|s| > 1 ==> s[0] != '0')
  {
    if n < 0 then "-" + NatText(-n) else NatText(n)
  }

  /** Reads an optionally negative decimal integer; `None` unless the whole string is one. */
  function ParseInt(s: string): Option<int>
  {
    if |s| > 0 && s[0] == '-' then
      var digits := s[1..];
      if |digits| > 0 && AllDigits(digits) then Some(-(DigitsValue(digits) as int)) else None
    else if |s| > 0 && AllDigits(s) then Some(DigitsValue(s))
    else None
  }

  lemma {:induction false} NatTextValue(n: nat)
    ensures DigitsValue(NatText(n)) == n
  {
    if n >= 10 {
      NatTextValue(n / 10);
      var s := NatText(n);
      assert s[..|s| - 1] == NatText(n / 10);
    }
  }

  /** Reading back the text of an integer gives the integer. */
  lemma IntTextRoundTrip(n: int)
    ensures ParseInt(IntText(n)) == Some(n)
  {
    var s := IntText(n);
    if n < 0 {
      var digits := NatText(-n);
      assert s == "-" + digits && s[1..] == digits;
      NatTextValue(-n);
    } else {
      assert IsDigit(s[0]);
      NatTextValue(n);
    }
  }

  /** The position of the last occurrence of `c` in `s`, if any. */
  function LastIndexOf(s: string, c: char): (r: Option<nat>)
    ensures r.Some? ==> r.value < |s| && s[r.value] == c && forall j :: r.value < j < |s| ==> s[j] != c
    ensures r.None? <==> c !in s
  {
    if s == [] then None
    else if s[|s| - 1] == c then Some(|s| - 1)
    else
      var r := LastIndexOf(s[..|s| - 1], c);
      assert s == s[..|s| - 1] + [s[|s| - 1]];
      r
  }

  /** The id a diagnostic text ends with: the integer between its last `=` and its closing `)`. */
  function IdOfDescription(s: string): Option<int> {
    match LastIndexOf(s, '=')
    case None => None
    case Some(i) =>
      var rest := s[i + 1..];
      if |rest| > 0 && rest[|rest| - 1] == ')' then ParseInt(rest[..|rest| - 1]) else None
  }

  /**
   * The message's `toString`.  The text starts with the fixed head, then
   * holds the type name, and whatever the type name contains, the id can be
   * read back from it.
   */
  function Description(typeName: string, id: int): (s: string)
    ensures |s| > |DESCRIPTION_HEAD| + |typeName|
    ensures s[..|DESCRIPTION_HEAD|] == DESCRIPTION_HEAD
    ensures s[|DESCRIPTION_HEAD|..|DESCRIPTION_HEAD| + |typeName|] == typeName
    ensures s[|DESCRIPTION_HEAD| + |typeName|..] == ID_LABEL + IntText(id) + ")"
    ensures IdOfDescription(s) == Some(id)
  {
    var s := DESCRIPTION_HEAD + typeName + ID_LABEL + IntText(id) + ")";
    DescriptionShape(typeName, id, s);
    s
  }

  lemma DescriptionShape(typeName: string, id: int, s: string)
    requires s == DESCRIPTION_HEAD + typeName + ID_LABEL + IntText(id) + ")"
    ensures |s| > |DESCRIPTION_HEAD| + |typeName|
    ensures s[..|DESCRIPTION_HEAD|] == DESCRIPTION_HEAD
    ensures s[|DESCRIPTION_HEAD|..|DESCRIPTION_HEAD| + |typeName|] == typeName
    ensures s[|DESCRIPTION_HEAD| + |typeName|..] == ID_LABEL + IntText(id) + ")"
    ensures IdOfDescription(s) == Some(id)
  {
    var digits := IntText(id);
    var tail := ID_LABEL + digits + ")";
    assert s == DESCRIPTION_HEAD + typeName + tail;
    ThreeParts(DESCRIPTION_HEAD, typeName, tail, s);
    var front := DESCRIPTION_HEAD + typeName + ID_LABEL;
    assert s == front + digits + ")";
    assert front[|front| - 1] == '=';
    IdAfterLastEquals(front, digits, s);
    IntTextRoundTrip(id);
  }

  lemma ThreeParts(a: string, b: string, c: string, s: string)
    requires s == a + b + c
    ensures s[..|a|] == a && s[|a|..|a| + |b|] == b && s[|a| + |b|..] == c
  {
  }

  /** The id field is read from between the last `=`, which closes the part in front of it, and the final `)`. */
  lemma IdAfterLastEquals(front: string, digits: string, s: string)
    requires |front| > 0 && front[|front| - 1] == '='
    requires '=' !in digits
    requires s == front + digits + ")"
    ensures IdOfDescription(s) == ParseInt(digits)
  {
    forall j | |front| <= j < |s| ensures s[j] != '=' {
      if j < |front| + |digits| {
        assert s[j] == digits[j - |front|];
      }
    }
    var r := LastIndexOf(s, '=');
    assert s[|front| - 1] == '=';
    assert r == Some(|front| - 1);
    var rest := s[|front|..];
    assert rest == digits + ")";
    assert rest[..|rest| - 1] == digits;
  }
}

/** Python's `int(text)` on a CSV cell: surrounding whitespace is stripped,
    an optional sign is read, and the rest must be ASCII digits, possibly in
    groups joined by single underscores. Other text, including the non-ASCII
    decimal digits Python would also accept, is `None` here; a `ValueError`
    in Python for everything but those digits. */
module PyInt {
  import opened Wrappers
  import opened Text

  /** The characters `str.isspace` accepts, which `int()` ignores at both ends. */
  predicate IsPySpace(c: char) {
    var n := c as int;
    (9 <= n <= 13) || (28 <= n <= 32) || n == 0x85 || n == 0xA0 || n == 0x1680
    || (0x2000 <= n <= 0x200A) || n == 0x2028 || n == 0x2029 || n == 0x202F
    || n == 0x205F || n == 0x3000
  }

  function StripStart(s: string): (t: string)
    ensures |t| <= |s| && t == s[|s| - |t|..]
    ensures t == [] || !IsPySpace(t[0])
    ensures forall k :: 0 <= k < |s| - |t| ==> IsPySpace(s[k])
    decreases |s|
  {
    if s != [] && IsPySpace(s[0]) then StripStart(s[1..]) else s
  }

  function StripEnd(s: string): (t: string)
    ensures |t| <= |s| && t == s[..|t|]
    ensures t == [] || !IsPySpace(t[|t| - 1])
    ensures forall k :: |t| <= k < |s| ==> IsPySpace(s[k])
    decreases |s|
  {
    if s != [] && IsPySpace(s[|s| - 1]) then StripEnd(s[..|s| - 1]) else s
  }

  /** `str.strip()`. */
  function Strip(s: string): string {
    StripEnd(StripStart(s))
  }

  /** ASCII digits, in groups joined by single underscores. */
  predicate Grouped(s: string) {
    && |s| > 0 && IsDigit(s[0]) && IsDigit(s[|s| - 1])
    && (forall i :: 0 <= i < |s| ==> IsDigit(s[i]) || s[i] == '_')
    && (forall i, j :: 0 <= i && j == i + 1 < |s| && s[i] == '_' ==> IsDigit(s[j]))
  }

  /** The digits of a grouped literal with the underscores taken out. */
  function DropUnderscores(s: string): (t: string)
    ensures (forall i :: 0 <= i < |s| ==> IsDigit(s[i]) || s[i] == '_') ==> AllDigits(t)
    decreases |s|
  {
    if s == [] then []
    else if s[0] == '_' then DropUnderscores(s[1..])
    else [s[0]] + DropUnderscores(s[1..])
  }

  lemma {:induction false} DropUnderscoresOfDigits(s: string)
    requires AllDigits(s)
    ensures DropUnderscores(s) == s
    decreases |s|
  {
    if s != [] {
      DropUnderscoresOfDigits(s[1..]);
    }
  }

  /** The value of an unsigned literal body, if it is one. */
  function GroupedValue(s: string): Option<nat> {
    if Grouped(s) then Some(DigitsValue(DropUnderscores(s))) else None
  }

  lemma GroupedValueOfDigits(s: string)
    requires AllDigits(s) && s != []
    ensures GroupedValue(s) == Some(DigitsValue(s))
  {
    DropUnderscoresOfDigits(s);
  }

  /** The value of stripped text: an optional sign, then a grouped literal. */
  function SignedValue(t: string): Option<int> {
    if t != [] && (t[0] == '-' || t[0] == '+') then
      match GroupedValue(t[1..])
      case Some(n) => Some(if t[0] == '-' then 0 - n else n)
      case None => None
    else
      match GroupedValue(t)
      case Some(n) => Some(n)
      case None => None
  }

  /** `int(s)`. */
  function ParsePyInt(s: string): (r: Option<int>)
    ensures r.Some? ==> Strip(s) != []
  {
    SignedValue(Strip(s))
  }

  /** Plain ASCII digits read as their decimal value. */
  lemma ParsePlainDigits(s: string)
    requires AllDigits(s) && s != []
    ensures ParsePyInt(s) == Some(DigitsValue(s))
  {
    assert Strip(s) == s by {
      StripUnspaced(s);
    }
    assert GroupedValue(s) == Some(DigitsValue(s)) by {
      GroupedValueOfDigits(s);
    }
    assert s[0] != '-' && s[0] != '+';
  }

  /** Text without surrounding whitespace is its own strip. */
  lemma StripUnspaced(s: string)
    requires s != [] && !IsPySpace(s[0]) && !IsPySpace(s[|s| - 1])
    ensures Strip(s) == s
  {
  }

  /** `int(str(i)) == i` for a negative `i`, whose rendering is a minus sign
      before the digits of its magnitude. */
  lemma ParseNegativeDecimal(i: int)
    requires i < 0
    ensures ParsePyInt(IntToDecimal(i)) == Some(i)
  {
    var m := NatToDecimal(-i);
    var s := "-" + m;
    assert IntToDecimal(i) == s;
    assert !AllDigits(s) by {
      assert !IsDigit(s[0]);
    }
    assert Strip(s) == s by {
      assert s[|s| - 1] == m[|m| - 1];
      StripUnspaced(s);
    }
    assert GroupedValue(s[1..]) == Some(-i) by {
      assert s[1..] == m;
      GroupedValueOfDigits(m);
      DecimalRoundTrip(-i);
    }
    assert SignedValue(s) == Some(i);
    assert ParsePyInt(s) == SignedValue(Strip(s));
  }

  /** `int(str(i)) == i` for `i >= 0`, whose rendering is plain digits. */
  lemma ParseNatDecimal(i: int)
    requires i >= 0
    ensures ParsePyInt(IntToDecimal(i)) == Some(i)
  {
    assert IntToDecimal(i) == NatToDecimal(i);
    ParsePlainDigits(NatToDecimal(i));
    DecimalRoundTrip(i);
  }

  /** `int(str(i)) == i`. */
  lemma ParseDecimalRoundTrip(i: int)
    ensures ParsePyInt(IntToDecimal(i)) == Some(i)
  {
    if i < 0 {
      ParseNegativeDecimal(i);
    } else {
      ParseNatDecimal(i);
    }
  }

  predicate AllPySpace(s: string) {
    forall i :: 0 <= i < |s| ==> IsPySpace(s[i])
  }

  lemma {:induction false} StripStartSpaces(a: string, t: string)
    requires AllPySpace(a) && (t == [] || !IsPySpace(t[0]))
    ensures StripStart(a + t) == t
    decreases |a|
  {
    if a == [] {
      assert a + t == t;
    } else {
      assert (a + t)[1..] == a[1..] + t;
      StripStartSpaces(a[1..], t);
    }
  }

  lemma {:induction false} StripEndSpaces(t: string, b: string)
    requires AllPySpace(b) && (t == [] || !IsPySpace(t[|t| - 1]))
    ensures StripEnd(t + b) == t
    decreases |b|
  {
    if b == [] {
      assert t + b == t;
    } else {
      var u := t + b;
      assert u[..|u| - 1] == t + b[..|b| - 1];
      StripEndSpaces(t, b[..|b| - 1]);
    }
  }

  /** `int()` ignores white space around the literal. */
  lemma ParseIgnoresSpace(a: string, t: string, b: string)
    requires AllPySpace(a) && AllPySpace(b)
    requires t != [] && !IsPySpace(t[0]) && !IsPySpace(t[|t| - 1])
    ensures ParsePyInt(a + t + b) == ParsePyInt(t)
  {
    assert a + t + b == a + (t + b);
    StripStartSpaces(a, t + b);
    StripEndSpaces(t, b);
    StripUnspaced(t);
  }

  /** Blank text is not an integer. */
  lemma RejectBlank(s: string)
    requires AllPySpace(s)
    ensures ParsePyInt(s) == None
  {
    assert s + [] == s;
    StripStartSpaces(s, []);
  }

  /** Text that does not open with a sign or an ASCII digit is not read as
      an integer here. */
  lemma RejectNonDigitStart(s: string)
    requires s != [] && !IsPySpace(s[0]) && !IsPySpace(s[|s| - 1])
    requires !IsDigit(s[0]) && s[0] != '-' && s[0] != '+'
    ensures ParsePyInt(s) == None
  {
    StripUnspaced(s);
    assert !Grouped(s);
  }

  /** Two underscores in a row never join digit groups. */
  lemma RejectDoubleUnderscore(s: string, i: nat)
    requires s != [] && !IsPySpace(s[0]) && !IsPySpace(s[|s| - 1])
    requires 1 <= i && i + 1 < |s| && s[i] == '_' && s[i + 1] == '_'
    ensures ParsePyInt(s) == None
  {
    StripUnspaced(s);
    if s[0] == '-' || s[0] == '+' {
      var t := s[1..];
      assert t[i - 1] == '_' && t[i] == '_';
      assert !Grouped(t);
    } else {
      assert !Grouped(s);
    }
  }
}

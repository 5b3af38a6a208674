/** PostgreSQL's `int4` input conversion, which reads a query parameter
    compared with an integer column: C white space is skipped at both ends,
    one optional sign is read, and at least one ASCII digit must follow. A
    value outside the 32-bit range is an error like malformed text. Errors
    are `None`; the database raises them to the caller. */
module PgInt {
  import opened Wrappers
  import opened Text

  const Int4Min := -0x8000_0000
  const Int4Max := 0x7fff_ffff

  /** The characters C's `isspace` accepts: space, tab, newline, vertical
      tab, form feed and carriage return. */
  predicate IsCSpace(c: char) {
    c == ' ' || ('\t' <= c <= '\r')
  }

  predicate AllCSpace(s: string) {
    forall i :: 0 <= i < |s| ==> IsCSpace(s[i])
  }

  function SkipSpaces(s: string): (t: string)
    ensures |t| <= |s| && t == s[|s| - |t|..]
    ensures t == [] || !IsCSpace(t[0])
    decreases |s|
  {
    if s != [] && IsCSpace(s[0]) then SkipSpaces(s[1..]) else s
  }

  function DropTrailingSpaces(s: string): (t: string)
    ensures |t| <= |s| && t == s[..|t|]
    ensures t == [] || !IsCSpace(t[|t| - 1])
    decreases |s|
  {
    if s != [] && IsCSpace(s[|s| - 1]) then DropTrailingSpaces(s[..|s| - 1]) else s
  }

  /** The value of an optionally signed run of digits, before the range check. */
  function SignedDigits(t: string): (r: Option<int>)
    ensures r.Some? ==> t != [] && t != "-" && t != "+"
  {
    if t != [] && (t[0] == '-' || t[0] == '+') then
      var digits := t[1..];
      if digits == [] || !AllDigits(digits) then None
      else if t[0] == '-' then Some(-(DigitsValue(digits) as int))
      else Some(DigitsValue(digits))
    else if t == [] || !AllDigits(t) then None
    else Some(DigitsValue(t))
  }

  /** The integer a parameter spells as an `int4`, or `None` when the
      database rejects it. */
  function ParseInt4(s: string): (r: Option<int>)
    ensures r.Some? ==> Int4Min <= r.value <= Int4Max
  {
    match SignedDigits(DropTrailingSpaces(SkipSpaces(s)))
    case Some(v) => if Int4Min <= v <= Int4Max then Some(v) else None
    case None => None
  }

  /** A rendering has no white space to skip. */
  lemma DecimalUnspaced(i: int)
    ensures SkipSpaces(IntToDecimal(i)) == IntToDecimal(i)
    ensures DropTrailingSpaces(IntToDecimal(i)) == IntToDecimal(i)
  {
    var s := IntToDecimal(i);
    assert !IsCSpace(s[0]) && !IsCSpace(s[|s| - 1]);
  }

  lemma SignedMinus(m: string)
    requires m != [] && AllDigits(m)
    ensures SignedDigits("-" + m) == Some(-(DigitsValue(m) as int))
  {
    assert ("-" + m)[1..] == m;
  }

  lemma SignedPlain(m: string)
    requires m != [] && AllDigits(m)
    ensures SignedDigits(m) == Some(DigitsValue(m))
  {
    assert IsDigit(m[0]);
  }

  /** A rendered integer is read back, sign included, before the range check. */
  lemma DecimalRead(i: int)
    ensures SkipSpaces(IntToDecimal(i)) == IntToDecimal(i)
    ensures DropTrailingSpaces(IntToDecimal(i)) == IntToDecimal(i)
    ensures SignedDigits(IntToDecimal(i)) == Some(i)
  {
    DecimalUnspaced(i);
    if i < 0 {
      SignedMinus(NatToDecimal(-i));
      DecimalRoundTrip(-i);
    } else {
      SignedPlain(NatToDecimal(i));
      DecimalRoundTrip(i);
    }
  }

  /** The decimal rendering of every `int4` reads back as that integer. */
  lemma Int4RoundTrip(i: int)
    requires Int4Min <= i <= Int4Max
    ensures ParseInt4(IntToDecimal(i)) == Some(i)
  {
    DecimalRead(i);
  }

  /** An integer outside the `int4` range is rejected even when well formed. */
  lemma RejectOutOfRange(i: int)
    requires i < Int4Min || Int4Max < i
    ensures ParseInt4(IntToDecimal(i)) == None
  {
    DecimalRead(i);
  }

  lemma {:induction false} SkipSpacesOf(a: string, t: string)
    requires AllCSpace(a) && (t == [] || !IsCSpace(t[0]))
    ensures SkipSpaces(a + t) == t
    decreases |a|
  {
    if a == [] {
      assert a + t == t;
    } else {
      assert (a + t)[1..] == a[1..] + t;
      SkipSpacesOf(a[1..], t);
    }
  }

  lemma {:induction false} DropTrailingSpacesOf(t: string, b: string)
    requires AllCSpace(b) && (t == [] || !IsCSpace(t[|t| - 1]))
    ensures DropTrailingSpaces(t + b) == t
    decreases |b|
  {
    if b == [] {
      assert t + b == t;
    } else {
      var u := t + b;
      assert u[..|u| - 1] == t + b[..|b| - 1];
      DropTrailingSpacesOf(t, b[..|b| - 1]);
    }
  }

  /** White space around the literal does not change its value. */
  lemma ParseInt4IgnoresSpace(a: string, t: string, b: string)
    requires AllCSpace(a) && AllCSpace(b)
    requires t != [] && !IsCSpace(t[0]) && !IsCSpace(t[|t| - 1])
    ensures ParseInt4(a + t + b) == ParseInt4(t)
  {
    assert a + t + b == a + (t + b);
    SkipSpacesOf(a, t + b);
    DropTrailingSpacesOf(t, b);
    assert SkipSpaces(t) == t;
    assert DropTrailingSpaces(t) == t;
  }

  /** A character other than a digit after the optional sign, such as the
      point of a decimal fraction or a letter, makes the text invalid. */
  lemma RejectNonDigit(s: string, k: nat)
    requires s != [] && !IsCSpace(s[0]) && !IsCSpace(s[|s| - 1])
    requires 0 < k < |s| && !IsDigit(s[k])
    ensures ParseInt4(s) == None
  {
    assert SkipSpaces(s) == s;
    assert DropTrailingSpaces(s) == s;
    assert !AllDigits(s);
    if s[0] == '-' || s[0] == '+' {
      assert s[1..][k - 1] == s[k];
    }
  }
}

/** Decimal numbers as the program prints them (`str(n)`) and as `int(...)` reads them
    from ASCII text: an optional sign, then digits that single underscores may part. */
module Decimal {
  import opened Text

  predicate IsDigit(c: char)
  {
    '0' <= c <= '9'
  }

  function DigitValue(c: char): nat
    requires IsDigit(c)
  {
    c as int - '0' as int
  }

  function Print(n: nat): (s: string)
    ensures s != [] && forall c :: c in s ==> IsDigit(c)
  {
    var last := [('0' as int + n % 10) as char];
    if n < 10 then last else Print(n / 10) + last
  }

  function ParseDigits(s: string, acc: nat): Option<nat>
    decreases |s|
  {
    if s == [] || !IsDigit(s[0]) then None
    else
      var value := 10 * acc + DigitValue(s[0]);
      if |s| == 1 then Some(value)
      else if s[1] == '_' then ParseDigits(s[2..], value)
      else ParseDigits(s[1..], value)
  }

  /** `int(s)`; None is the ValueError. */
  function ParseInt(s: string): Option<int>
  {
    var signed := s != [] && (s[0] == '-' || s[0] == '+');
    match ParseDigits(if signed then s[1..] else s, 0)
    case None => None
    case Some(v) =>
      var value: int := v;
      Some(if signed && s[0] == '-' then -value else value)
  }

  /** A digit, or an underscore behind one. */
  predicate Fits(s: string, i: int)
    requires 1 <= i < |s|
  {
    IsDigit(s[i]) || (s[i] == '_' && IsDigit(s[i - 1]))
  }

  /** Digits, with single underscores between them. */
  predicate IsNumeral(s: string)
  {
    s != [] && IsDigit(s[0]) && IsDigit(s[|s| - 1]) && forall i :: 1 <= i < |s| ==> Fits(s, i)
  }

  lemma NumeralRest(s: string, k: nat)
    requires |s| > 1 && IsDigit(s[0]) && k == (if s[1] == '_' then 2 else 1) && k < |s|
    ensures IsNumeral(s) <==> IsNumeral(s[k..])
  {
    var rest := s[k..];
    assert rest[|rest| - 1] == s[|s| - 1] && rest[0] == s[k];
    forall i | 1 <= i < |rest|
      ensures Fits(rest, i) <==> Fits(s, i + k)
    {
    }
    if IsNumeral(s) { assert Fits(s, k); }
    if IsNumeral(rest) {
      forall i | 1 <= i < |s|
        ensures Fits(s, i)
      {
        if i > k { assert Fits(rest, i - k); }
      }
    }
  }

  /** Just numerals are read, an optional sign in front of them. */
  lemma {:induction false} DigitsAreNumerals(s: string, acc: nat)
    ensures ParseDigits(s, acc).Some? <==> IsNumeral(s)
    decreases |s|
  {
    if s != [] && IsDigit(s[0]) && |s| > 1 {
      var k := if s[1] == '_' then 2 else 1;
      DigitsAreNumerals(s[k..], 10 * acc + DigitValue(s[0]));
      if k < |s| { NumeralRest(s, k); }
      hide Fits;
    }
  }

  /** A sign decides about the sign of what is read, and nothing else; underscores do not
      count. */
  lemma IntMeaning(s: string)
    ensures var signed := s != [] && (s[0] == '-' || s[0] == '+');
            && (ParseInt(s).Some? <==> IsNumeral(if signed then s[1..] else s))
    ensures var plain := ParseInt(s);
            (s != [] && IsDigit(s[0]) ==>
              && ParseInt("+" + s) == plain
              && ParseInt("-" + s) == if plain.Some? then Some(-plain.value) else None)
  {
    DigitsAreNumerals(if s != [] && (s[0] == '-' || s[0] == '+') then s[1..] else s, 0);
    assert ("+" + s)[1..] == s && ("-" + s)[1..] == s;
  }

  lemma {:induction false} UnderscoreIsSkipped(s: string, t: string, acc: nat)
    requires s != [] && IsDigit(s[|s| - 1]) && t != [] && IsDigit(t[0])
    ensures ParseDigits(s + "_" + t, acc) == ParseDigits(s + t, acc)
    decreases |s|
  {
    var a, b := s + "_" + t, s + t;
    assert a[0] == b[0] == s[0];
    if |s| == 1 {
      assert a[1] == '_' && a[2..] == t && b[1..] == t && b[1] == t[0];
    } else {
      assert a[1] == b[1] == s[1];
      assert a[1..] == s[1..] + "_" + t && b[1..] == s[1..] + t;
      assert a[2..] == s[2..] + "_" + t && b[2..] == s[2..] + t;
      if IsDigit(s[0]) {
        var value := 10 * acc + DigitValue(s[0]);
        if s[1] == '_' {
          if |s| > 2 { UnderscoreIsSkipped(s[2..], t, value); }
        } else {
          UnderscoreIsSkipped(s[1..], t, value);
        }
      }
    }
  }

  lemma {:induction false} ParseDigitsAppend(s: string, c: char, acc: nat, value: nat)
    requires s != [] && (forall d :: d in s ==> IsDigit(d)) && IsDigit(c)
    requires ParseDigits(s, acc) == Some(value)
    ensures ParseDigits(s + [c], acc) == Some(10 * value + DigitValue(c))
    decreases |s|
  {
    var t := s + [c];
    assert forall j :: 0 <= j < |t| ==> t[j] in t;
    assert forall d :: d in t ==> IsDigit(d);
    assert t[1..] == s[1..] + [c];
    if |s| == 1 {
      assert t[1..] == [c];
    } else {
      assert IsDigit(s[1]);
      ParseDigitsAppend(s[1..], c, 10 * acc + DigitValue(s[0]), value);
    }
  }

  lemma {:induction false} ParsePrintDigits(n: nat)
    ensures ParseDigits(Print(n), 0) == Some(n)
  {
    if n >= 10 {
      ParsePrintDigits(n / 10);
      ParseDigitsAppend(Print(n / 10), ('0' as int + n % 10) as char, 0, n / 10);
    }
  }

  lemma ParsePrint(n: nat)
    ensures ParseInt(Print(n)) == Some(n)
  {
    ParsePrintDigits(n);
    assert IsDigit(Print(n)[0]);
  }
}

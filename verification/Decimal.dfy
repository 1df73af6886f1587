// dom-lib: integers as text, as a string stream writes them and atoi reads them.
module Decimals {
  import opened JsonParsing
  import opened JsonGrammar
  import opened JsonRoundTrip

  function Digit(d: nat): char
    requires d < 10
  {
    '0' + d as char
  }

  function Digits(n: nat): string {
    if n < 10 then [Digit(n)] else Digits(n / 10) + [Digit(n % 10)]
  }

  // What a string stream makes of an int.
  function Decimal(n: int): string {
    if n < 0 then "-" + Digits(-n) else Digits(n)
  }

  predicate IsDigit(c: char) { '0' <= c <= '9' }

  function ReadDigits(s: string, n: nat): (r: int)
    ensures r >= n
  {
    if s != "" && IsDigit(s[0]) then ReadDigits(s[1..], 10 * n + (s[0] - '0') as nat) else n
  }

  // Spaces, a sign, digits; whatever follows them is ignored.
  function Atoi(s: string): int {
    var t := SkipSpace(s);
    if t != "" && t[0] == '-' then -ReadDigits(t[1..], 0)
    else if t != "" && t[0] == '+' then ReadDigits(t[1..], 0)
    else ReadDigits(t, 0)
  }

  lemma {:induction false} DigitsRead(n: nat, rest: string)
    ensures ReadDigits(Digits(n) + rest, 0) == ReadDigits(rest, n)
    ensures IsDigit(Digits(n)[0]) && forall c :: c in Digits(n) ==> IsDigit(c)
  {
    if n < 10 {
      assert (Digits(n) + rest)[1..] == rest;
    } else {
      var last := [Digit(n % 10)];
      assert Digits(n) + rest == Digits(n / 10) + (last + rest);
      DigitsRead(n / 10, last + rest);
      assert (last + rest)[1..] == rest;
    }
  }

  // Printing an integer and reading it back, negative ones included.
  lemma DecimalRoundTrip(n: int)
    ensures Atoi(Decimal(n)) == n && IsBasicText(Decimal(n))
    ensures forall c :: c in Decimal(n) ==> c == '-' || IsDigit(c)
  {
    var digits := Digits(if n < 0 then -n else n);
    DigitsRead(if n < 0 then -n else n, "");
    assert digits + "" == digits;
    if n < 0 {
      assert Decimal(n)[1..] == digits;
    }
  }

  // ---- What the digits are worth ----

  predicate AllDigits(s: string) {
    s != "" && forall i :: 0 <= i < |s| ==> '0' <= s[i] <= '9'
  }

  lemma {:induction false} ReadLast(s: string, c: char, n: nat)
    requires '0' <= c <= '9' && forall i :: 0 <= i < |s| ==> '0' <= s[i] <= '9'
    ensures ReadDigits(s + [c], n) == 10 * ReadDigits(s, n) + (c - '0') as int
  {
    if s == "" {
      assert s + [c] == [c] && [c][1..] == "";
    } else {
      assert (s + [c])[1..] == s[1..] + [c];
      ReadLast(s[1..], c, 10 * n + (s[0] - '0') as nat);
    }
  }

  // A digit is worth itself, and each further digit ten times what stands before it.
  lemma AtoiPositional(s: string, c: char)
    requires '0' <= c <= '9'
    ensures Atoi([c]) == (c - '0') as int
    ensures AllDigits(s) ==> AllDigits(s + [c]) && Atoi(s + [c]) == 10 * Atoi(s) + (c - '0') as int
  {
    ReadLast("", c, 0);
    assert "" + [c] == [c];
    if AllDigits(s) {
      ReadLast(s, c, 0);
    }
  }

  lemma {:induction false} DigitsEnd(s: string, rest: string, n: nat)
    requires (forall i :: 0 <= i < |s| ==> '0' <= s[i] <= '9') && (rest == "" || !('0' <= rest[0] <= '9'))
    ensures ReadDigits(s + rest, n) == ReadDigits(s, n)
  {
    if s == "" {
      assert s + rest == rest;
    } else {
      assert (s + rest)[1..] == s[1..] + rest;
      DigitsEnd(s[1..], rest, 10 * n + (s[0] - '0') as nat);
    }
  }

  lemma AtoiSkips(blanks: string, s: string)
    requires Blank(blanks) && s != "" && !IsBlank(s[0])
    ensures Atoi(blanks + s) == Atoi(s)
  {
    SkipBlank(blanks, s);
  }

  lemma AtoiUnsigned(digits: string, rest: string)
    requires AllDigits(digits) && (rest == "" || !('0' <= rest[0] <= '9'))
    ensures Atoi(digits + rest) == Atoi(digits)
  {
    DigitsEnd(digits, rest, 0);
  }

  lemma AtoiSigned(sign: char, digits: string)
    requires sign in "+-" && digits != "" && '0' <= digits[0] <= '9'
    ensures Atoi([sign] + digits) == if sign == '-' then -Atoi(digits) else Atoi(digits)
  {
    assert ([sign] + digits)[1..] == digits;
  }

  // Blanks in front and anything behind do not count, and one sign does.
  lemma AtoiReads(blanks: string, digits: string, rest: string)
    requires Blank(blanks) && AllDigits(digits) && (rest == "" || !('0' <= rest[0] <= '9'))
    ensures Atoi(blanks + (digits + rest)) == Atoi(blanks + ("+" + (digits + rest))) == Atoi(digits)
    ensures Atoi(blanks + ("-" + (digits + rest))) == -Atoi(digits)
  {
    AtoiUnsigned(digits, rest);
    AtoiSigned('+', digits + rest);
    AtoiSigned('-', digits + rest);
    AtoiSkips(blanks, digits + rest);
    AtoiSkips(blanks, "+" + (digits + rest));
    AtoiSkips(blanks, "-" + (digits + rest));
  }

  // Without a digit there, the number is zero.
  lemma AtoiZero(blanks: string, sign: string, rest: string)
    requires Blank(blanks) && sign in ["", "+", "-"]
    requires rest != "" ==> !('0' <= rest[0] <= '9') && (sign == "" ==> !IsBlank(rest[0]) && rest[0] !in "+-")
    ensures Atoi(blanks + sign + rest) == 0
  {
    assert blanks + sign + rest == blanks + (sign + rest);
    if sign + rest == "" {
      OnlyBlank(blanks);
      assert blanks + (sign + rest) == blanks;
    } else {
      SkipBlank(blanks, sign + rest);
      assert sign != "" ==> (sign + rest)[1..] == rest;
    }
  }

  lemma {:induction false} OnlyBlank(s: string)
    requires Blank(s)
    ensures SkipSpace(s) == ""
  {
    if s != "" {
      assert s[0] in s;
      OnlyBlank(s[1..]);
    }
  }

  // The one text that a stream writes: no sign but a minus, and no zero in front.
  predicate Canonical(s: string) {
    AllDigits(s) && (s[0] == '0' ==> |s| == 1)
  }

  lemma {:induction false} DigitsCanonical(n: nat)
    ensures Canonical(Digits(n)) && (Digits(n)[0] == '0' <==> n == 0)
  {
    if n >= 10 {
      DigitsCanonical(n / 10);
    }
  }

  lemma DecimalCanonical(n: int)
    ensures if n < 0 then |Decimal(n)| > 1 && Decimal(n)[0] == '-' && Canonical(Decimal(n)[1..]) && Decimal(n)[1] != '0'
            else Canonical(Decimal(n))
  {
    DigitsCanonical(if n < 0 then -n else n);
    assert n < 0 ==> Decimal(n)[1..] == Digits(-n);
  }

  lemma {:induction false} DigitsOfAtoi(s: string)
    requires Canonical(s)
    ensures Atoi(s) >= 0 && Digits(Atoi(s)) == s && (s != "0" ==> Atoi(s) > 0)
  {
    var n := |s| - 1;
    var front, c := s[..n], s[n];
    assert s == front + [c];
    AtoiPositional(front, c);
    if n > 0 {
      DigitsOfAtoi(front);
    } else {
      assert s == [c];
    }
  }

  // Every such text, with a minus before it or without, is what is written for the number it
  // reads as.
  lemma DecimalOfAtoi(s: string)
    requires Canonical(s)
    ensures Decimal(Atoi(s)) == s
    ensures s != "0" ==> Atoi("-" + s) == -Atoi(s) && Decimal(Atoi("-" + s)) == "-" + s
  {
    DigitsOfAtoi(s);
    AtoiSigned('-', s);
  }
}

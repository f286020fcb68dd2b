/** Text as the page's script sees it: Python's ordering of `str` values
    (used by `sorted` and by `groupby`), `str(int)`, and the part of
    `pd.to_numeric` that reads a number out of a text cell. */
module Text {
  import opened Seqs

  /** Python's `a < b` on `str`: lexicographic by code point. */
  predicate StrLt(a: string, b: string)
  {
    if b == [] then false
    else if a == [] then true
    else if a[0] != b[0] then a[0] < b[0]
    else StrLt(a[1..], b[1..])
  }

  predicate StrLe(a: string, b: string)
  {
    a == b || StrLt(a, b)
  }

  lemma {:induction false} StrLtIrreflexive(a: string)
    ensures !StrLt(a, a)
  {
    if a != [] {
      StrLtIrreflexive(a[1..]);
    }
  }

  lemma {:induction false} StrLtTransitive(a: string, b: string, c: string)
    requires StrLt(a, b) && StrLt(b, c)
    ensures StrLt(a, c)
  {
    if a != [] && a[0] == b[0] && b[0] == c[0] {
      StrLtTransitive(a[1..], b[1..], c[1..]);
    }
  }

  /** Two different strings are always ordered one way or the other. */
  lemma {:induction false} StrLtTotal(a: string, b: string)
    requires a != b
    ensures StrLt(a, b) || StrLt(b, a)
  {
    if a != [] && b != [] && a[0] == b[0] {
      assert a == [a[0]] + a[1..];
      assert b == [b[0]] + b[1..];
      StrLtTotal(a[1..], b[1..]);
    }
  }

  /** Non-decreasing in Python's string order. */
  predicate SortedStrings(s: seq<string>)
  {
    forall i, j :: 0 <= i < j < |s| ==> StrLe(s[i], s[j])
  }

  /** Strictly ascending in Python's string order. */
  predicate AscendingStrings(s: seq<string>)
  {
    forall i, j :: 0 <= i < j < |s| ==> StrLt(s[i], s[j])
  }

  /** `x` placed into the sorted `s` before the first element it does not exceed. */
  function InsertString(x: string, s: seq<string>): (r: seq<string>)
    requires SortedStrings(s)
    ensures multiset(r) == multiset(s) + multiset{x}
    ensures SortedStrings(r)
  {
    if s == [] then [x]
    else if StrLe(x, s[0]) then
      PrependString(x, s);
      [x] + s
    else
      var rest := InsertString(x, s[1..]);
      assert StrLe(s[0], x) by { StrLtTotal(x, s[0]); }
      assert s == [s[0]] + s[1..];
      assert forall k :: 0 <= k < |rest| ==> StrLe(s[0], rest[k]) by {
        forall k | 0 <= k < |rest| ensures StrLe(s[0], rest[k]) {
          assert rest[k] in multiset(rest);
          assert rest[k] == x || rest[k] in s[1..];
        }
      }
      PrependString(s[0], rest);
      [s[0]] + rest
  }

  /** A string not above the first of a sorted list keeps it sorted when
      placed in front. */
  lemma PrependString(x: string, s: seq<string>)
    requires SortedStrings(s)
    requires s != [] ==> StrLe(x, s[0])
    ensures SortedStrings([x] + s)
  {
    forall i, j | 0 <= i < j < |[x] + s| ensures StrLe(([x] + s)[i], ([x] + s)[j]) {
      if i == 0 {
        if x != s[0] && s[0] != s[j - 1] { StrLtTransitive(x, s[0], s[j - 1]); }
      } else {
        assert ([x] + s)[i] == s[i - 1] && ([x] + s)[j] == s[j - 1];
      }
    }
  }

  /** `sorted(...)` of a list of strings. */
  function SortStrings(s: seq<string>): (r: seq<string>)
    ensures multiset(r) == multiset(s)
    ensures SortedStrings(r)
  {
    if s == [] then []
    else
      assert s == [s[0]] + s[1..];
      InsertString(s[0], SortStrings(s[1..]))
  }

  /** Sorting distinct strings gives them in strictly ascending order, each once. */
  lemma SortDistinctAscending(s: seq<string>)
    requires NoDup(s)
    ensures AscendingStrings(SortStrings(s))
    ensures forall x :: x in SortStrings(s) <==> x in s
    ensures |SortStrings(s)| == |s|
  {
    var r := SortStrings(s);
    assert forall x :: x in r <==> x in s by {
      forall x ensures x in r <==> x in s {
        assert x in r <==> x in multiset(r);
      }
    }
    assert |r| == |multiset(r)| == |multiset(s)| == |s|;
    forall i, j | 0 <= i < j < |r| ensures StrLt(r[i], r[j]) {
      RepeatCount(r, i, j);
      DistinctMultiset(s, r[i]);
    }
  }

  /** An element found at two positions occurs at least twice. */
  lemma RepeatCount(r: seq<string>, i: nat, j: nat)
    requires i < j < |r|
    ensures r[i] == r[j] ==> multiset(r)[r[i]] >= 2
  {
    assert r == r[..j] + r[j..];
    assert r[i] in r[..j] && r[j] in r[j..];
    assert multiset(r) == multiset(r[..j]) + multiset(r[j..]);
  }

  /** An element of a sequence without duplicates occurs exactly once. */
  lemma {:induction false} DistinctMultiset(s: seq<string>, x: string)
    requires NoDup(s)
    ensures multiset(s)[x] <= 1
  {
    if s != [] {
      assert s == [s[0]] + s[1..];
      assert NoDup(s[1..]) by {
        forall i, j | 0 <= i < j < |s[1..]| ensures s[1..][i] != s[1..][j] {
          assert s[1..][i] == s[i + 1] && s[1..][j] == s[j + 1];
        }
      }
      DistinctMultiset(s[1..], x);
      if s[0] == x {
        assert x !in s[1..] by {
          forall k | 0 <= k < |s[1..]| ensures s[1..][k] != x {
            assert s[1..][k] == s[k + 1];
          }
        }
      }
    }
  }

  // ----- decimal digits -----

  predicate IsDigit(c: char)
  {
    '0' <= c <= '9'
  }

  predicate AllDigits(s: string)
  {
    forall i :: 0 <= i < |s| ==> IsDigit(s[i])
  }

  function DigitChar(d: nat): (c: char)
    requires d < 10
    ensures IsDigit(c)
  {
    (48 + d) as char
  }

  function DigitValue(c: char): (d: nat)
    requires IsDigit(c)
    ensures d < 10
  {
    c as int - 48
  }

  /** The value of a run of decimal digits. */
  function DigitsValue(s: string): nat
    requires AllDigits(s)
  {
    if s == [] then 0
    else DigitsValue(s[..|s| - 1]) * 10 + DigitValue(s[|s| - 1])
  }

  function Pow10(n: nat): (p: nat)
    ensures p >= 1
  {
    if n == 0 then 1 else 10 * Pow10(n - 1)
  }

  /** `str(n)` for a natural number: its shortest decimal digits. */
  function NatToString(n: nat): (s: string)
    ensures |s| > 0 && AllDigits(s)
    ensures n < Pow10(|s|)
    ensures s[0] == '0' <==> n == 0
  {
    if n < 10 then [DigitChar(n)]
    else
      var s := NatToString(n / 10) + [DigitChar(n % 10)];
      assert s[..|s| - 1] == NatToString(n / 10);
      s
  }

  /** `str(n)` for an integer: a minus sign before the digits of a negative number. */
  function IntToString(n: int): (s: string)
    ensures |s| > 0
    ensures s[0] == '-' <==> n < 0
  {
    if n < 0 then "-" + NatToString(-n) else NatToString(n)
  }

  lemma {:induction false} NatToStringValue(n: nat)
    ensures DigitsValue(NatToString(n)) == n
  {
    if n >= 10 {
      var s := NatToString(n);
      assert s[..|s| - 1] == NatToString(n / 10);
      NatToStringValue(n / 10);
    }
  }

  // ----- reading a number out of text -----

  /** The length of the run of digits that `s` starts with. */
  function DigitRun(s: string): (k: nat)
    ensures k <= |s|
    ensures AllDigits(s[..k])
    ensures k < |s| ==> !IsDigit(s[k])
  {
    if s == [] || !IsDigit(s[0]) then 0
    else
      var k := 1 + DigitRun(s[1..]);
      assert forall i :: 1 <= i < k ==> s[..k][i] == s[1..][..k - 1][i - 1];
      k
  }

  /** The value of whole digits `whole` and `n` fraction digits `frac`. */
  function Decimal(whole: nat, frac: nat, n: nat): real
  {
    whole as real + frac as real / Pow10(n) as real
  }

  /** An unsigned decimal: digits, optionally a point and more digits, with
      at least one digit in all; anything else is not a number. */
  function ParseUnsigned(s: string): Option<real>
  {
    var k := DigitRun(s);
    if k == |s| then
      if k == 0 then None else Some(DigitsValue(s) as real)
    else if s[k] == '.' && AllDigits(s[k + 1..]) && (k > 0 || k + 1 < |s|) then
      Some(Decimal(DigitsValue(s[..k]), DigitsValue(s[k + 1..]), |s| - k - 1))
    else None
  }

  /** What `pd.to_numeric(..., errors='coerce')` reads from a text cell:
      an optional sign and an unsigned decimal, `None` where that fails. */
  function ParseNumber(s: string): Option<real>
  {
    if |s| > 0 && (s[0] == '-' || s[0] == '+') then
      match ParseUnsigned(s[1..])
      case None => None
      case Some(v) => Some(if s[0] == '-' then -v else v)
    else ParseUnsigned(s)
  }

  /** Reading back the text `str` gives for an integer returns that integer. */
  lemma ParseIntToString(n: int)
    ensures ParseNumber(IntToString(n)) == Some(n as real)
  {
    var m: nat := if n < 0 then -n else n;
    var t := NatToString(m);
    NatToStringValue(m);
    assert DigitRun(t) == |t|;
    assert t[..|t|] == t;
    assert ParseUnsigned(t) == Some(m as real);
    if n < 0 {
      assert IntToString(n)[1..] == t;
    } else {
      assert !(t[0] == '-' || t[0] == '+');
    }
  }

  /** Digits followed by text that does not start with a digit: the run of
      digits is exactly the given digits. */
  lemma {:induction false} DigitRunPrefix(a: string, rest: string)
    requires AllDigits(a)
    requires rest == [] || !IsDigit(rest[0])
    ensures DigitRun(a + rest) == |a|
  {
    if a != [] {
      assert (a + rest)[1..] == a[1..] + rest;
      DigitRunPrefix(a[1..], rest);
    }
  }

  /** The value a sign gives an unsigned amount. */
  function Signed(sign: string, v: real): real
  {
    if sign == "-" then -v else v
  }

  /** A price cell of the catalogue, "40.9", reads as 40.9. */
  lemma ReadsCataloguePrice()
    ensures ParseNumber("40.9") == Some(40.9)
  {
    ParseDecimal("", "40", "9");
    assert "" + "40" + "." + "9" == "40.9";
    assert DigitsValue("40") == 40 by {
      assert "40"[..1] == "4";
      assert ""[..0] == "" && "4"[..0] == "";
    }
    assert DigitsValue("9") == 9 by {
      assert "9"[..0] == "";
    }
  }

  /** A sign before text that reads as an unsigned amount gives it that sign. */
  lemma ParseSigned(sign: string, t: string, v: real)
    requires sign == "" || sign == "-" || sign == "+"
    requires t != [] && t[0] != '-' && t[0] != '+'
    requires ParseUnsigned(t) == Some(v)
    ensures ParseNumber(sign + t) == Some(Signed(sign, v))
  {
    if sign == "" {
      assert sign + t == t;
    } else {
      assert (sign + t)[1..] == t;
    }
  }

  lemma UnsignedWhole(a: string)
    requires a != [] && AllDigits(a)
    ensures ParseUnsigned(a) == Some(DigitsValue(a) as real)
  {
    DigitRunPrefix(a, []);
    assert a + [] == a;
    assert a[..|a|] == a;
  }

  lemma UnsignedDecimal(a: string, b: string)
    requires AllDigits(a) && AllDigits(b) && |a| + |b| > 0
    ensures ParseUnsigned(a + "." + b) == Some(Decimal(DigitsValue(a), DigitsValue(b), |b|))
  {
    var t := a + "." + b;
    DigitRunPrefix(a, "." + b);
    assert a + ("." + b) == t;
    assert t[..|a|] == a;
    assert t[|a|] == '.';
    assert t[|a| + 1..] == b;
  }

  /** Text made of an optional sign and digits reads as their value. */
  lemma ParseWhole(sign: string, a: string)
    requires sign == "" || sign == "-" || sign == "+"
    requires a != [] && AllDigits(a)
    ensures ParseNumber(sign + a) == Some(Signed(sign, DigitsValue(a) as real))
  {
    UnsignedWhole(a);
    assert IsDigit(a[0]);
    ParseSigned(sign, a, DigitsValue(a) as real);
  }

  /** Text made of an optional sign, digits, a point and digits, with at
      least one digit in all, reads as the decimal they spell: "40.9" reads
      as 40.9. */
  lemma ParseDecimal(sign: string, a: string, b: string)
    requires sign == "" || sign == "-" || sign == "+"
    requires AllDigits(a) && AllDigits(b) && |a| + |b| > 0
    ensures ParseNumber(sign + a + "." + b) == Some(Signed(sign, Decimal(DigitsValue(a), DigitsValue(b), |b|)))
  {
    var t := a + "." + b;
    assert sign + a + "." + b == sign + t;
    UnsignedDecimal(a, b);
    UnsignedStart(a, b);
    ParseSigned(sign, t, Decimal(DigitsValue(a), DigitsValue(b), |b|));
  }

  /** Digits, a point and digits never start with a sign. */
  lemma UnsignedStart(a: string, b: string)
    requires AllDigits(a)
    ensures (a + "." + b)[0] != '-' && (a + "." + b)[0] != '+'
  {
    if a != [] {
      assert (a + "." + b)[0] == a[0];
    }
  }

  /** Text holding a character that belongs to no decimal number (a letter,
      a space, a unit sign) never reads as a number. */
  lemma ParseRejectsForeignChar(s: string, i: nat)
    requires i < |s|
    requires !IsDigit(s[i]) && s[i] != '.' && s[i] != '-' && s[i] != '+'
    ensures ParseNumber(s) == None
  {
    var t := if |s| > 0 && (s[0] == '-' || s[0] == '+') then s[1..] else s;
    var j := if t == s then i else i - 1;
    assert 0 <= j < |t| && t[j] == s[i];
    UnsignedRejects(t, j);
  }

  lemma UnsignedRejects(t: string, j: nat)
    requires j < |t|
    requires !IsDigit(t[j]) && t[j] != '.'
    ensures ParseUnsigned(t) == None
  {
    var k := DigitRun(t);
    if j > k && k < |t| {
      assert t[k + 1..][j - k - 1] == t[j];
    }
  }
}

/** Strings of decimal and hexadecimal digits. */
module Digits {
  function DigitOf(d: nat): (c: char)
    requires d < 10
    ensures IsDigit(c) && c as int - '0' as int == d
  {
    ('0' as int + d) as char
  }

  predicate IsDigit(c: char) { '0' <= c <= '9' }

  function DigitValue(c: char): (d: nat)
    requires IsDigit(c)
    ensures d < 10 && ('0' as int + d) as char == c
  {
    c as int - '0' as int
  }

  predicate AllDigits(s: string) { forall c | c in s :: IsDigit(c) }

  /** The number which a string of decimal digits stands for. */
  function ValueOf(s: string): nat
    requires AllDigits(s)
  {
    if s == [] then 0 else 10 * ValueOf(s[..|s| - 1]) + DigitValue(s[|s| - 1])
  }

  lemma {:induction false} PrefixValue(s: string, i: nat)
    requires i <= |s| && AllDigits(s)
    ensures ValueOf(s[..i]) <= ValueOf(s)
    decreases |s|
  {
    if i < |s| {
      PrefixValue(s[..|s| - 1], i);
      assert s[..|s| - 1][..i] == s[..i];
    } else {
      assert s[..i] == s;
    }
  }

  predicate IsHexDigit(c: char) { IsDigit(c) || 'A' <= c <= 'F' || 'a' <= c <= 'f' }

  function HexDigitValue(c: char): (d: nat)
    requires IsHexDigit(c)
    ensures d < 16
  {
    if IsDigit(c) then c as int - '0' as int
    else if c <= 'F' then c as int - 'A' as int + 10
    else c as int - 'a' as int + 10
  }

  /** Which digit stands for which number. */
  lemma HexDigits(d: nat)
    requires d < 16
    ensures IsHexDigit("0123456789abcdef"[d]) && HexDigitValue("0123456789abcdef"[d]) == d
    ensures IsHexDigit("0123456789ABCDEF"[d]) && HexDigitValue("0123456789ABCDEF"[d]) == d
  {
    if d < 10 {
      assert "0123456789abcdef"[d] == "0123456789ABCDEF"[d];
      assert HexDigitValue("0123456789abcdef"[d]) == d;
    } else {
      assert HexDigitValue("0123456789abcdef"[d]) == d;
      assert HexDigitValue("0123456789ABCDEF"[d]) == d;
    }
  }

  predicate AllHexDigits(s: string) { forall c | c in s :: IsHexDigit(c) }

  /** The number which a string of hexadecimal digits stands for. */
  function HexValue(s: string): nat
    requires AllHexDigits(s)
  {
    if s == [] then 0 else 16 * HexValue(s[..|s| - 1]) + HexDigitValue(s[|s| - 1])
  }

  lemma HexValueMore(s: string, c: char)
    requires AllHexDigits(s) && IsHexDigit(c)
    ensures AllHexDigits(s + [c]) && HexValue(s + [c]) == 16 * HexValue(s) + HexDigitValue(c)
  {
    assert (s + [c])[..|s|] == s;
  }

  lemma ValueMore(s: string, c: char)
    requires AllDigits(s) && IsDigit(c)
    ensures AllDigits(s + [c]) && ValueOf(s + [c]) == 10 * ValueOf(s) + DigitValue(c)
  {
    assert (s + [c])[..|s|] == s;
  }

  lemma {:induction false} NotZero(s: string)
    requires s != [] && AllDigits(s) && s[0] != '0'
    ensures ValueOf(s) > 0
    decreases |s|
  {
    if |s| > 1 {
      NotZero(s[..|s| - 1]);
    } else {
      assert DigitOf(0) == '0';
      assert ValueOf(s) == DigitValue(s[0]) by { assert s[..0] == []; }
    }
  }

  /** A decimal number with no leading zero. */
  predicate IsDecimal(f: string, limit: nat) {
    f != [] && AllDigits(f) && (f[0] == '0' ==> |f| == 1) && ValueOf(f) <= limit
  }

  /** A decimal number which lacks a digit is either empty or one that can be continued. */
  lemma DecimalFront(f: string, c: char, g: string, limit: nat)
    requires IsDecimal(f + [c] + g, limit)
    ensures IsDigit(c) && AllDigits(f) && AllDigits(f + [c]) && ValueOf(f + [c]) <= limit && ValueOf(f) <= limit
    ensures f != [] ==> ValueOf(f) != 0
  {
    hide ValueOf;
    var all := f + [c] + g;
    assert c == all[|f|] && c in all;
    assert all[..|f|] == f && all[..|f| + 1] == f + [c];
    PrefixValue(all, |f|);
    PrefixValue(all, |f| + 1);
    if f != [] {
      assert f[0] == all[0];
      NotZero(f);
    }
  }

  /** A decimal number other than zero can be continued. */
  lemma DecimalMore(f: string, c: char, limit: nat)
    requires AllDigits(f) && IsDigit(c) && ValueOf(f + [c]) <= limit
    requires f != [] ==> f[0] == '0' ==> |f| == 1
    requires f != [] ==> ValueOf(f) != 0
    ensures IsDecimal(f + [c], limit)
  {
  }

  function Decimal(n: nat): string {
    if n < 10 then [DigitOf(n)] else Decimal(n / 10) + [DigitOf(n % 10)]
  }

  lemma {:induction false} DecimalValue(n: nat)
    ensures Decimal(n) != [] && AllDigits(Decimal(n)) && ValueOf(Decimal(n)) == n
    ensures Decimal(n)[0] == '0' <==> n == 0
  {
    if n < 10 {
    } else {
      DecimalValue(n / 10);
      var s := Decimal(n);
      assert s[..|s| - 1] == Decimal(n / 10);
    }
  }

  lemma {:induction false} SameValue(a: string, b: string)
    requires AllDigits(a) && AllDigits(b) && |a| == |b| && ValueOf(a) == ValueOf(b)
    ensures a == b
    decreases |a|
  {
    if a == [] {
    } else {
      var a', b' := a[..|a| - 1], b[..|b| - 1];
      SameValue(a', b');
      assert a == a' + [a[|a| - 1]] && b == b' + [b[|b| - 1]];
    }
  }

  lemma {:induction false} DecimalShortest(s: string)
    requires s != [] && AllDigits(s)
    ensures |Decimal(ValueOf(s))| <= |s|
    ensures |Decimal(ValueOf(s))| == |s| <==> s[0] != '0' || |s| == 1
    decreases |s|
  {
    var front := s[..|s| - 1];
    if front == [] {
      assert ValueOf(s) == DigitValue(s[0]);
    } else {
      DecimalShortest(front);
      var v := ValueOf(front);
      assert ValueOf(s) / 10 == v;
      if v == 0 {
        DecimalValue(0);
        assert |Decimal(0)| == 1;
        if front[0] != '0' {
          NotZero(front);
        }
      }
    }
  }

  /** A decimal number with no leading zero is how its value is printed. */
  lemma DecimalOfValue(s: string, limit: nat)
    requires IsDecimal(s, limit)
    ensures Decimal(ValueOf(s)) == s
  {
    hide Decimal, ValueOf;
    DecimalValue(ValueOf(s));
    DecimalShortest(s);
    SameValue(Decimal(ValueOf(s)), s);
  }
}

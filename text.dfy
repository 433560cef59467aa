/** The string operations the edit draft goes through: the decimal form of a
    non-negative integer (`Number.prototype.toString`), `padStart` with '0'
    (section 22.1.3.17 of ECMA-262), `parseInt` with radix 10 (section
    19.2.5 of ECMA-262) and `includes` (section 22.1.3.8 of ECMA-262). */
module Text {
  import opened Options

  predicate IsDigit(c: char)
  {
    '0' <= c <= '9'
  }

  function DigitChar(d: int): (c: char)
    requires 0 <= d <= 9
    ensures IsDigit(c)
  {
    ('0' as int + d) as char
  }

  function DigitValue(c: char): (d: nat)
    requires IsDigit(c)
    ensures d <= 9 && DigitChar(d) == c
  {
    c as int - '0' as int
  }

  /** The decimal numeral of n, without leading zeros. */
  function NatToString(n: nat): (s: string)
    ensures 1 <= |s| && (forall i :: 0 <= i < |s| ==> IsDigit(s[i]))
    ensures n < 10 <==> |s| == 1
    ensures 10 <= n < 100 <==> |s| == 2
    decreases n
  {
    if n < 10 then [DigitChar(n)] else NatToString(n / 10) + [DigitChar(n % 10)]
  }

  /** k copies of c. */
  function Repeat(c: char, k: nat): (r: string)
    ensures |r| == k && forall i :: 0 <= i < k ==> r[i] == c
  {
    if k == 0 then [] else [c] + Repeat(c, k - 1)
  }

  /** `s.padStart(len, fill)` for a one-character fill string. */
  function PadStart(s: string, len: nat, fill: char): (r: string)
    ensures |r| == if |s| < len then len else |s|
    ensures r[|r| - |s|..] == s
    ensures forall i :: 0 <= i < |r| - |s| ==> r[i] == fill
  {
    if |s| < len then Repeat(fill, len - |s|) + s else s
  }

  /** `n.toString().padStart(2, '0')`. */
  function TwoDigits(n: nat): string
  {
    PadStart(NatToString(n), 2, '0')
  }

  /** The value of a string of decimal digits, most significant first. */
  function DigitsValue(ds: string): nat
    requires forall i :: 0 <= i < |ds| ==> IsDigit(ds[i])
  {
    if ds == [] then 0 else DigitsValue(ds[..|ds| - 1]) * 10 + DigitValue(ds[|ds| - 1])
  }

  /** ECMAScript's StrWhiteSpaceChar: WhiteSpace (TAB, VT, FF, ZWNBSP and
      the Unicode space separators) and LineTerminator (LF, CR, LS, PS). */
  predicate IsWhiteSpace(c: char)
  {
    c == '\t' || c == '\U{000B}' || c == '\U{000C}' || c == '\U{FEFF}' ||
    c == ' ' || c == '\U{00A0}' || c == '\U{1680}' || '\U{2000}' <= c <= '\U{200A}' ||
    c == '\U{202F}' || c == '\U{205F}' || c == '\U{3000}' ||
    c == '\n' || c == '\r' || c == '\U{2028}' || c == '\U{2029}'
  }

  /** The string without its leading white space (TrimStartSpec). */
  function TrimStart(s: string): (r: string)
    ensures |r| <= |s|
  {
    if s != [] && IsWhiteSpace(s[0]) then TrimStart(s[1..]) else s
  }

  /** TrimStart removes a prefix made only of white space, and exactly the
      longest one: what is left is empty or starts with another character. */
  lemma {:induction false} TrimStartSpec(s: string)
    ensures var r := TrimStart(s);
            && r == s[|s| - |r|..]
            && (forall i :: 0 <= i < |s| - |r| ==> IsWhiteSpace(s[i]))
            && (r == [] || !IsWhiteSpace(r[0]))
    decreases |s|
  {
    if s != [] && IsWhiteSpace(s[0]) {
      TrimStartSpec(s[1..]);
      var r := TrimStart(s);
      assert r == TrimStart(s[1..]);
      assert s[1..][|s| - 1 - |r|..] == s[|s| - |r|..];
      forall i | 0 <= i < |s| - |r| ensures IsWhiteSpace(s[i]) {
        if i > 0 {
          assert s[i] == s[1..][i - 1];
        }
      }
    }
  }

  /** The longest prefix of s made of decimal digits (DigitPrefixSpec). */
  function DigitPrefix(s: string): (ds: string)
    ensures |ds| <= |s| && forall i :: 0 <= i < |ds| ==> IsDigit(ds[i])
  {
    if s != [] && IsDigit(s[0]) then [s[0]] + DigitPrefix(s[1..]) else []
  }

  /** DigitPrefix is a prefix of s, made of digits, and cannot be extended. */
  lemma {:induction false} DigitPrefixSpec(s: string)
    ensures var ds := DigitPrefix(s);
            && ds == s[..|ds|]
            && (forall i :: 0 <= i < |ds| ==> IsDigit(s[i]))
            && (|ds| == |s| || !IsDigit(s[|ds|]))
    decreases |s|
  {
    if s != [] && IsDigit(s[0]) {
      DigitPrefixSpec(s[1..]);
      var ds := DigitPrefix(s);
      var rest := DigitPrefix(s[1..]);
      assert ds == [s[0]] + rest;
      assert rest == s[1..][..|rest|];
      assert ds == s[..|ds|];
      forall i | 0 <= i < |ds| ensures IsDigit(s[i]) {
        if i > 0 {
          assert s[i] == s[1..][i - 1];
        }
      }
      if |ds| < |s| {
        assert s[|ds|] == s[1..][|rest|];
      }
    }
  }

  /** `parseInt(s, 10)`: skip leading white space, take one optional sign,
      then the longest run of decimal digits; None (NaN) when that run is
      empty. Anything after the digits is ignored. */
  function ParseInt(s: string): Option<int>
  {
    var t := TrimStart(s);
    var sign := if t != [] && t[0] == '-' then -1 else 1;
    var u := if t != [] && (t[0] == '-' || t[0] == '+') then t[1..] else t;
    var ds := DigitPrefix(u);
    if ds == [] then None else Some(sign * DigitsValue(ds))
  }

  lemma {:induction false} DigitsValueOfNatToString(n: nat)
    ensures DigitsValue(NatToString(n)) == n
    decreases n
  {
    var s := NatToString(n);
    if n >= 10 {
      DigitsValueOfNatToString(n / 10);
      assert s[..|s| - 1] == NatToString(n / 10);
    }
  }

  lemma {:induction false} DigitsValueLeadingZeros(k: nat, ds: string)
    requires forall i :: 0 <= i < |ds| ==> IsDigit(ds[i])
    ensures var zs := Repeat('0', k) + ds;
            (forall i :: 0 <= i < |zs| ==> IsDigit(zs[i])) && DigitsValue(zs) == DigitsValue(ds)
    decreases |ds|
  {
    var zs := Repeat('0', k) + ds;
    if ds == [] {
      ZerosValue(k);
      assert zs == Repeat('0', k);
    } else {
      var init := ds[..|ds| - 1];
      DigitsValueLeadingZeros(k, init);
      assert zs[..|zs| - 1] == Repeat('0', k) + init;
    }
  }

  lemma {:induction false} ZerosValue(k: nat)
    ensures DigitsValue(Repeat('0', k)) == 0
  {
    if k > 0 {
      ZerosValue(k - 1);
      assert Repeat('0', k)[..k - 1] == Repeat('0', k - 1);
    }
  }

  lemma DigitPrefixOfDigits(ds: string)
    requires forall i :: 0 <= i < |ds| ==> IsDigit(ds[i])
    ensures DigitPrefix(ds) == ds
  {
  }

  /** parseInt reads a non-empty string of digits as its value. */
  lemma ParseDigits(ds: string)
    requires ds != [] && forall i :: 0 <= i < |ds| ==> IsDigit(ds[i])
    ensures ParseInt(ds) == Some(DigitsValue(ds))
  {
    assert IsDigit(ds[0]);
    assert !IsWhiteSpace(ds[0]) && ds[0] != '-' && ds[0] != '+';
    assert TrimStart(ds) == ds;
    DigitPrefixOfDigits(ds);
  }

  /** parseInt reads back every zero-padded numeral that padStart makes. */
  lemma ParsePadded(n: nat, len: nat)
    ensures ParseInt(PadStart(NatToString(n), len, '0')) == Some(n)
  {
    var s := NatToString(n);
    var p := PadStart(s, len, '0');
    DigitsValueOfNatToString(n);
    if |s| < len {
      assert p == Repeat('0', len - |s|) + s;
      DigitsValueLeadingZeros(len - |s|, s);
    }
    ParseDigits(p);
  }

  /** parseInt reads n back from its two-digit form. */
  lemma ParseTwoDigits(n: nat)
    ensures ParseInt(TwoDigits(n)) == Some(n)
  {
    ParsePadded(n, 2);
  }

  /** The two-digit form of n < 100 is exactly its tens digit and its units
      digit. */
  lemma TwoDigitsShape(n: nat)
    requires n < 100
    ensures TwoDigits(n) == [DigitChar(n / 10), DigitChar(n % 10)]
  {
    if n < 10 {
      assert n / 10 == 0 && n % 10 == n;
      assert NatToString(n) == [DigitChar(n)];
      assert TwoDigits(n) == Repeat('0', 1) + [DigitChar(n)];
    } else {
      assert n / 10 < 10;
      assert NatToString(n / 10) == [DigitChar(n / 10)];
      assert NatToString(n) == [DigitChar(n / 10)] + [DigitChar(n % 10)];
    }
  }

  /** The two-digit form of the number with tens digit a and units digit b. */
  lemma TwoDigitsOfDigits(a: int, b: int)
    requires 0 <= a <= 9 && 0 <= b <= 9
    ensures TwoDigits(10 * a + b) == [DigitChar(a), DigitChar(b)]
  {
    var n := 10 * a + b;
    assert n / 10 == a && n % 10 == b;
    TwoDigitsShape(n);
  }

  /** The two-digit forms the scenario lemmas use. */
  lemma TwoDigitsExamples()
    ensures TwoDigits(0) == "00" && TwoDigits(15) == "15" && TwoDigits(23) == "23" && TwoDigits(30) == "30"
  {
    TwoDigitsOfDigits(0, 0);
    TwoDigitsOfDigits(1, 5);
    TwoDigitsOfDigits(2, 3);
    TwoDigitsOfDigits(3, 0);
  }

  /** "24", which no hour select offers, reads as 24. */
  lemma ParseTwentyFour()
    ensures ParseInt("24") == Some(24)
  {
    TwoDigitsOfDigits(2, 4);
    ParseTwoDigits(24);
  }

  /** Distinct numbers have distinct two-digit forms. */
  lemma TwoDigitsInjective(m: nat, n: nat)
    requires TwoDigits(m) == TwoDigits(n)
    ensures m == n
  {
    ParsePadded(m, 2);
    ParsePadded(n, 2);
  }

  /** `sub` occurs in `s` at position i. */
  predicate OccursAt(s: string, sub: string, i: int)
  {
    0 <= i <= |s| - |sub| && s[i..i + |sub|] == sub
  }

  /** `s.includes(sub)`, searched from the front. */
  function Contains(s: string, sub: string): bool
    decreases |s|
  {
    if |s| < |sub| then false
    else if s[..|sub|] == sub then true
    else Contains(s[1..], sub)
  }

  /** The search finds `sub` exactly when it occurs somewhere in `s`. */
  lemma {:induction false} ContainsIffOccurs(s: string, sub: string)
    ensures Contains(s, sub) <==> exists i :: OccursAt(s, sub, i)
    decreases |s|
  {
    if |s| < |sub| {
    } else if s[..|sub|] == sub {
      assert OccursAt(s, sub, 0);
    } else {
      ContainsIffOccurs(s[1..], sub);
      if Contains(s[1..], sub) {
        var j :| OccursAt(s[1..], sub, j);
        assert s[j + 1..j + 1 + |sub|] == s[1..][j..j + |sub|];
        assert OccursAt(s, sub, j + 1);
      }
      if exists i :: OccursAt(s, sub, i) {
        var i :| OccursAt(s, sub, i);
        assert i != 0;
        assert s[1..][i - 1..i - 1 + |sub|] == s[i..i + |sub|];
        assert OccursAt(s[1..], sub, i - 1);
      }
    }
  }

  /** A string in which one character of `sub` never appears does not
      contain `sub`. */
  lemma {:induction false} NotContains(s: string, sub: string, k: int)
    requires 0 <= k < |sub| && forall j :: 0 <= j < |s| ==> s[j] != sub[k]
    ensures !Contains(s, sub)
    decreases |s|
  {
    if |s| >= |sub| {
      assert s[..|sub|][k] == s[k];
      NotContains(s[1..], sub, k);
    }
  }
}

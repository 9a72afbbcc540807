/** The JavaScript string operations the core relies on: `includes`, the
    relational `<` on strings, `toLowerCase` and the numeric coercion `Number(s)`. */
module Text {
  import opened Model

  /** `sub` occurs in `s` starting at position `i`. */
  predicate OccursAt(s: string, sub: string, i: int) {
    0 <= i && i + |sub| <= |s| && s[i..i + |sub|] == sub
  }

  /** `s.includes(sub)`, computed by trying each start position in turn. */
  function Contains(s: string, sub: string): (r: bool)
    ensures r ==> |sub| <= |s|
    ensures s == sub ==> r
    decreases |s|
  {
    if |sub| > |s| then false
    else if s[..|sub|] == sub then true
    else Contains(s[1..], sub)
  }

  /** `Contains` finds `sub` exactly when it occurs at some position of `s`. */
  lemma {:induction false} ContainsIff(s: string, sub: string)
    ensures Contains(s, sub) <==> exists i :: OccursAt(s, sub, i)
    decreases |s|
  {
    if |sub| > |s| {
      assert forall i :: !OccursAt(s, sub, i);
    } else if s[..|sub|] == sub {
      assert OccursAt(s, sub, 0);
    } else {
      ContainsIff(s[1..], sub);
      if Contains(s[1..], sub) {
        var i :| OccursAt(s[1..], sub, i);
        assert s[1..][i..i + |sub|] == s[i + 1..i + 1 + |sub|];
        assert OccursAt(s, sub, i + 1);
      } else {
        forall i | OccursAt(s, sub, i) ensures false {
          assert i != 0;
          assert s[1..][i - 1..i - 1 + |sub|] == s[i..i + |sub|];
          assert OccursAt(s[1..], sub, i - 1);
        }
      }
    }
  }

  /** Every string includes the empty string. */
  lemma IncludesEmpty(s: string)
    ensures Contains(s, "")
  {
    assert s[..0] == "";
  }

  /** JavaScript's `a < b` on two strings: lexicographic order on characters,
      a proper prefix coming first. */
  function StrLess(a: string, b: string): (r: bool)
    ensures r ==> a != b
  {
    if |a| == 0 then |b| > 0
    else if |b| == 0 then false
    else if a[0] != b[0] then a[0] < b[0]
    else StrLess(a[1..], b[1..])
  }

  lemma {:induction false} StrLessIrreflexive(a: string)
    ensures !StrLess(a, a)
  {
    if |a| > 0 {
      StrLessIrreflexive(a[1..]);
    }
  }

  lemma {:induction false} StrLessAsymmetric(a: string, b: string)
    ensures StrLess(a, b) ==> !StrLess(b, a)
  {
    if |a| > 0 && |b| > 0 && a[0] == b[0] {
      StrLessAsymmetric(a[1..], b[1..]);
    }
  }

  lemma {:induction false} StrLessTransitive(a: string, b: string, c: string)
    ensures StrLess(a, b) && StrLess(b, c) ==> StrLess(a, c)
  {
    if |a| > 0 && |b| > 0 && |c| > 0 && a[0] == b[0] && b[0] == c[0] {
      StrLessTransitive(a[1..], b[1..], c[1..]);
    }
  }

  /** Two different strings are always ordered one way or the other. */
  lemma {:induction false} StrLessTotal(a: string, b: string)
    ensures a == b || StrLess(a, b) || StrLess(b, a)
  {
    if |a| > 0 && |b| > 0 && a[0] == b[0] {
      StrLessTotal(a[1..], b[1..]);
      if a[1..] == b[1..] {
        assert a == [a[0]] + a[1..] && b == [b[0]] + b[1..];
      }
    }
  }

  /** ASCII upper case to lower case; every other character is unchanged. */
  function LowerChar(c: char): char {
    if 'A' <= c <= 'Z' then (c as int - 'A' as int + 'a' as int) as char else c
  }

  /** `toLowerCase`, character by character. */
  function ToLower(s: string): (r: string)
    ensures |r| == |s| && forall i :: 0 <= i < |s| ==> r[i] == LowerChar(s[i])
  {
    if s == [] then [] else [LowerChar(s[0])] + ToLower(s[1..])
  }

  /** The white-space characters `Number(s)` strips from both ends. */
  predicate IsSpace(c: char) {
    c == ' ' || c == '\t' || c == '\n' || c == '\r' || c == '\U{B}' || c == '\U{C}'
    || c == '\U{A0}' || c == '\U{FEFF}' || c == '\U{2028}' || c == '\U{2029}'
    || c == '\U{1680}' || ('\U{2000}' <= c <= '\U{200A}') || c == '\U{202F}' || c == '\U{205F}' || c == '\U{3000}'
  }

  function Trim(s: string): (r: string)
    ensures |r| <= |s|
    decreases |s|
  {
    if s == [] then s
    else if IsSpace(s[0]) then Trim(s[1..])
    else if IsSpace(s[|s| - 1]) then Trim(s[..|s| - 1])
    else s
  }

  predicate IsDigit(c: char) {
    '0' <= c <= '9'
  }

  predicate AllDigits(s: string) {
    forall i :: 0 <= i < |s| ==> IsDigit(s[i])
  }

  /** The number of leading decimal digits of `s`. */
  function DigitRun(s: string): (n: nat)
    ensures n <= |s| && AllDigits(s[..n]) && (n < |s| ==> !IsDigit(s[n]))
  {
    if s == [] || !IsDigit(s[0]) then 0
    else
      var n := 1 + DigitRun(s[1..]);
      assert s[..n] == [s[0]] + s[1..][..n - 1];
      n
  }

  /** The value of a string of decimal digits. */
  function DigitsValue(s: string): nat
    requires AllDigits(s)
  {
    if s == [] then 0 else 10 * DigitsValue(s[..|s| - 1]) + (s[|s| - 1] as int - '0' as int)
  }

  function Pow10(n: nat): (r: nat)
    ensures r >= 1
  {
    if n == 0 then 1 else 10 * Pow10(n - 1)
  }

  /** An unsigned decimal literal: digits, optionally followed by a point and
      more digits, with at least one digit in all. */
  function ParseUnsigned(t: string): (r: Option<real>)
    ensures r.Some? ==> exists i :: 0 <= i < |t| && IsDigit(t[i])
  {
    var n := DigitRun(t);
    if n == |t| then
      if n > 0 then assert t[..n][0] == t[0]; Some(DigitsValue(t) as real) else None
    else if t[n] != '.' || !AllDigits(t[n + 1..]) || (n == 0 && n + 1 == |t|) then None
    else
      var frac := t[n + 1..];
      assert if n > 0 then t[..n][0] == t[0] else frac[0] == t[1];
      Some(DigitsValue(t[..n]) as real + DigitsValue(frac) as real / Pow10(|frac|) as real)
  }

  /** `Number(s)`: `None` stands for NaN. Surrounding white space is ignored,
      a blank string is 0, and an optional sign may precede the literal. */
  function ParseNum(s: string): (r: Option<real>)
    ensures r.Some? && Trim(s) != "" ==> exists i :: 0 <= i < |Trim(s)| && IsDigit(Trim(s)[i])
  {
    var t := Trim(s);
    if t == "" then Some(0.0)
    else
      assert ParseUnsigned(t[1..]).Some? ==> exists i :: 0 <= i < |t| && IsDigit(t[i]) by {
        if ParseUnsigned(t[1..]).Some? {
          var i :| 0 <= i < |t[1..]| && IsDigit(t[1..][i]);
          assert t[1..][i] == t[i + 1];
        }
      }
      if t[0] == '-' then
        match ParseUnsigned(t[1..])
        case Some(x) => Some(-x)
        case None => None
      else if t[0] == '+' then ParseUnsigned(t[1..])
      else ParseUnsigned(t)
  }

  /** An empty cell is the number 0, not NaN, and a word is NaN. */
  lemma ParseNumExamples()
    ensures ParseNum("") == Some(0.0)
    ensures ParseNum("2") == Some(2.0)
    ensures ParseNum("10") == Some(10.0)
    ensures ParseNum("abc") == None
    ensures ParseNum("\U{3000}5") == Some(5.0)
  {
    assert DigitRun("2") == 1;
    assert DigitsValue("2") == 2;
    assert DigitRun("10") == 2 by {
      assert DigitRun("10"[1..]) == 1;
    }
    assert DigitsValue("10") == 10 by {
      assert "10"[..1] == "1";
      assert DigitsValue("1") == 1;
    }
    assert Trim("abc") == "abc";
    assert DigitRun("abc") == 0;
  }
}

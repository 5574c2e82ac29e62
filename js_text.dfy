/**
 * The parts of JavaScript's string library the scheduler and the bot rely on:
 * `String.prototype.trim`, `parseInt(_, 10)`, `String.prototype.includes`,
 * and the decimal rendering of an integer inside a template literal.
 */
module JsText {
  import opened Options

  /** WhiteSpace and LineTerminator characters: what `trim` strips and `parseInt` skips. */
  predicate IsJsSpace(c: char) {
    c == '\t' || c == '\n' || c == '\U{000B}' || c == '\U{000C}' || c == '\r' || c == ' '
    || c == '\U{00A0}' || c == '\U{1680}' || ('\U{2000}' <= c <= '\U{200A}')
    || c == '\U{2028}' || c == '\U{2029}' || c == '\U{202F}' || c == '\U{205F}'
    || c == '\U{3000}' || c == '\U{FEFF}'
  }

  /** A string that `trim` leaves as it is. */
  predicate IsTrimmed(s: string) {
    s == "" || (!IsJsSpace(s[0]) && !IsJsSpace(s[|s| - 1]))
  }

  /** Drops the leading white space. */
  function TrimStart(s: string): (r: string)
    ensures |r| <= |s|
    ensures r == "" || !IsJsSpace(r[0])
  {
    if s != "" && IsJsSpace(s[0]) then TrimStart(s[1..]) else s
  }

  /** What `TrimStart` keeps is a suffix of `s`, and everything it drops is white space. */
  lemma {:induction false} TrimStartDropsSpace(s: string)
    ensures TrimStart(s) == s[|s| - |TrimStart(s)|..]
    ensures forall i :: 0 <= i < |s| - |TrimStart(s)| ==> IsJsSpace(s[i])
  {
    if s != "" && IsJsSpace(s[0]) {
      TrimStartDropsSpace(s[1..]);
    }
  }

  /** Drops the trailing white space: what remains is a prefix of `s`. */
  function TrimEnd(s: string): (r: string)
    ensures |r| <= |s| && r == s[..|r|]
    ensures r == "" || !IsJsSpace(r[|r| - 1])
  {
    if s != "" && IsJsSpace(s[|s| - 1]) then TrimEnd(s[..|s| - 1]) else s
  }

  /** Everything `TrimEnd` drops is white space. */
  lemma {:induction false} TrimEndDropsSpace(s: string)
    ensures forall i :: |TrimEnd(s)| <= i < |s| ==> IsJsSpace(s[i])
  {
    if s != "" && IsJsSpace(s[|s| - 1]) {
      TrimEndDropsSpace(s[..|s| - 1]);
    }
  }

  /** `s.trim()`: the result has no white space at either end, and a string without any is kept. */
  function Trim(s: string): (r: string)
    ensures IsTrimmed(r)
    ensures IsTrimmed(s) ==> r == s
  {
    TrimEnd(TrimStart(s))
  }

  predicate IsDigit(c: char) {
    '0' <= c <= '9'
  }

  predicate IsDigits(s: string) {
    forall i :: 0 <= i < |s| ==> IsDigit(s[i])
  }

  function DigitValue(c: char): (d: nat)
    requires IsDigit(c)
    ensures d < 10
  {
    (c as int) - ('0' as int)
  }

  function DigitChar(d: nat): (c: char)
    requires d < 10
    ensures IsDigit(c) && DigitValue(c) == d
  {
    (('0' as int) + d) as char
  }

  /** The longest prefix of `s` made of decimal digits. */
  function LeadingDigits(s: string): (r: string)
    ensures |r| <= |s| && r == s[..|r|] && IsDigits(r)
    ensures |r| < |s| ==> !IsDigit(s[|r|])
  {
    if s != "" && IsDigit(s[0]) then [s[0]] + LeadingDigits(s[1..]) else ""
  }

  /** The value of a decimal numeral, most significant digit first. */
  function DecimalValue(ds: string): nat
    requires IsDigits(ds)
  {
    if ds == "" then 0 else DecimalValue(ds[..|ds| - 1]) * 10 + DigitValue(ds[|ds| - 1])
  }

  /**
   * `parseInt(s, 10)`: skip leading white space, read an optional sign, then the longest
   * run of decimal digits; `None` stands for `NaN` (no digit at all).
   */
  function ParseInt(s: string): Option<int> {
    ParseSigned(TrimStart(s))
  }

  /** The sign-and-digits part of `parseInt`, once leading white space is gone. */
  function ParseSigned(t: string): Option<int> {
    if t != "" && t[0] == '-' then
      match ParseDigits(t[1..])
      case None => None
      case Some(v) => Some(-v)
    else if t != "" && t[0] == '+' then ParseDigits(t[1..])
    else ParseDigits(t)
  }

  /** The value of the leading run of digits, or `None` when there is none. */
  function ParseDigits(body: string): Option<int> {
    var ds := LeadingDigits(body);
    if ds == "" then None else Some(DecimalValue(ds))
  }

  /** The decimal rendering of a natural number, without leading zeros. */
  function NatToString(n: nat): (r: string)
    ensures r != "" && IsDigits(r)
  {
    if n < 10 then [DigitChar(n)] else NatToString(n / 10) + [DigitChar(n % 10)]
  }

  /** `${i}` for an integer `i`. */
  function IntToString(i: int): (r: string)
    ensures r != ""
  {
    if i < 0 then "-" + NatToString(-i) else NatToString(i)
  }

  lemma {:induction false} DecimalValueOfNatToString(n: nat)
    ensures DecimalValue(NatToString(n)) == n
  {
    if n >= 10 {
      DecimalValueOfNatToString(n / 10);
      var s := NatToString(n / 10) + [DigitChar(n % 10)];
      assert s[..|s| - 1] == NatToString(n / 10);
    }
  }

  lemma {:induction false} LeadingDigitsOfDigits(ds: string)
    requires IsDigits(ds)
    ensures LeadingDigits(ds) == ds
  {
    if ds != "" {
      LeadingDigitsOfDigits(ds[1..]);
    }
  }

  lemma ParseDigitsOfDigits(ds: string)
    requires ds != "" && IsDigits(ds)
    ensures ParseDigits(ds) == Some(DecimalValue(ds))
  {
    LeadingDigitsOfDigits(ds);
  }

  /** Without leading white space, `parseInt` goes straight to the sign and digits. */
  lemma ParseIntNoLeadingSpace(t: string)
    requires t != "" && !IsJsSpace(t[0])
    ensures ParseInt(t) == ParseSigned(t)
  {
    assert TrimStart(t) == t;
  }

  /** `parseInt` reads a plain numeral back as its value. */
  lemma ParseIntOfDigits(ds: string)
    requires ds != "" && IsDigits(ds)
    ensures ParseInt(ds) == Some(DecimalValue(ds))
  {
    assert IsDigit(ds[0]);
    ParseIntNoLeadingSpace(ds);
    ParseDigitsOfDigits(ds);
  }

  /** `parseInt` finds no number in a string without digits (`NaN`), the empty string included. */
  lemma ParseIntNoDigits(s: string)
    requires forall i :: 0 <= i < |s| ==> !IsDigit(s[i])
    ensures ParseInt(s) == None
  {
    TrimStartDropsSpace(s);
    var t := TrimStart(s);
    assert forall i :: 0 <= i < |t| ==> t[i] == s[|s| - |t| + i];
    if t != "" && (t[0] == '-' || t[0] == '+') {
      assert forall i :: 0 <= i < |t[1..]| ==> t[1..][i] == t[i + 1];
    }
  }

  /** `parseInt` reads a minus sign followed by a numeral as the negated value. */
  lemma ParseIntOfNegatedDigits(ds: string)
    requires ds != "" && IsDigits(ds)
    ensures ParseInt(['-'] + ds) == Some(-(DecimalValue(ds) as int))
  {
    var t := ['-'] + ds;
    assert t[0] == '-' && t[1..] == ds;
    ParseSignedNegated(t, ds);
    ParseIntNoLeadingSpace(t);
  }

  lemma ParseSignedNegated(t: string, ds: string)
    requires ds != "" && IsDigits(ds)
    requires t != "" && t[0] == '-' && t[1..] == ds
    ensures ParseSigned(t) == Some(-(DecimalValue(ds) as int))
  {
    ParseDigitsOfDigits(ds);
  }

  lemma ParseIntOfIntToString(i: int)
    ensures ParseInt(IntToString(i)) == Some(i)
  {
    if i < 0 {
      DecimalValueOfNatToString(-i);
      ParseIntOfNegatedDigits(NatToString(-i));
    } else {
      DecimalValueOfNatToString(i);
      ParseIntOfDigits(NatToString(i));
    }
  }

  predicate StartsWith(s: string, prefix: string) {
    |prefix| <= |s| && s[..|prefix|] == prefix
  }

  /** `sub` occurs in `s` starting at position `i`. */
  predicate OccursAt(s: string, sub: string, i: nat) {
    i + |sub| <= |s| && s[i..i + |sub|] == sub
  }

  /** `s.includes(sub)`: `sub` occurs at some position of `s`. */
  predicate Includes(s: string, sub: string) {
    exists i: nat :: i <= |s| && OccursAt(s, sub, i)
  }

  /** The search as a scan: `sub` is a prefix of `s` or, failing that, found in `s` without its first character. */
  predicate ScanIncludes(s: string, sub: string) {
    StartsWith(s, sub) || (s != "" && ScanIncludes(s[1..], sub))
  }

  /** The scan finds `sub` exactly when `sub` occurs at some position. */
  lemma {:induction false} ScanIncludesIff(s: string, sub: string)
    ensures ScanIncludes(s, sub) <==> Includes(s, sub)
  {
    if s == "" {
      if ScanIncludes(s, sub) {
        assert OccursAt(s, sub, 0);
      }
    } else {
      ScanIncludesIff(s[1..], sub);
      if ScanIncludes(s, sub) {
        if StartsWith(s, sub) {
          assert OccursAt(s, sub, 0);
        } else {
          var i: nat :| i <= |s[1..]| && OccursAt(s[1..], sub, i);
          assert s[i + 1..i + 1 + |sub|] == s[1..][i..i + |sub|];
          assert OccursAt(s, sub, i + 1);
        }
      } else {
        forall i: nat
          ensures !OccursAt(s, sub, i)
        {
          if i == 0 {
            assert !StartsWith(s, sub);
          } else if i + |sub| <= |s| {
            var j: nat := i - 1;
            assert s[1..][j..j + |sub|] == s[i..i + |sub|];
            assert !OccursAt(s[1..], sub, j);
          }
        }
      }
    }
  }

  /** A witness position is enough to show `includes`. */
  lemma IncludesAt(s: string, sub: string, i: nat)
    requires OccursAt(s, sub, i)
    ensures Includes(s, sub)
  {
  }

  /** A string made of `a`, then `sub`, then `b` includes `sub`. */
  lemma IncludesMiddle(a: string, sub: string, b: string)
    ensures Includes(a + sub + b, sub)
  {
    var s := a + sub + b;
    assert s[|a|..|a| + |sub|] == sub;
    assert OccursAt(s, sub, |a|);
  }

  /** A string that lacks the first character of `sub` does not include `sub`. */
  lemma NotIncludesMissingChar(s: string, sub: string)
    requires sub != "" && sub[0] !in s
    ensures !Includes(s, sub)
  {
    forall i: nat
      ensures !OccursAt(s, sub, i)
    {
      if i + |sub| <= |s| {
        assert s[i..i + |sub|][0] == s[i];
      }
    }
  }

  /** A string in which the first character of `sub` is never followed by its second does not include `sub`. */
  lemma NotIncludesSecondChar(s: string, sub: string)
    requires |sub| >= 2
    requires forall i :: 0 <= i < |s| - 1 && s[i] == sub[0] ==> s[i + 1] != sub[1]
    ensures !Includes(s, sub)
  {
    if Includes(s, sub) {
      var i: nat :| i <= |s| && OccursAt(s, sub, i);
      CharOfMatch(s, sub, i, 0);
      CharOfMatch(s, sub, i, 1);
    }
  }

  /** The characters of a match are those of `sub`. */
  lemma CharOfMatch(s: string, sub: string, i: nat, k: nat)
    requires OccursAt(s, sub, i) && k < |sub|
    ensures s[i + k] == sub[k]
  {
    assert s[i..i + |sub|][k] == s[i + k];
  }

  /**
   * Inside a frame `p + r + q` whose text cannot start or end a match of `sub` (neither
   * part holds `sub`'s first character, and `q` starts with a character foreign to `sub`),
   * `sub` is found exactly when it is found in `r`.
   */
  lemma IncludesFramed(p: string, r: string, q: string, sub: string)
    requires sub != "" && sub[0] !in p && sub[0] !in q
    requires q != "" && q[0] !in sub
    ensures Includes(p + r + q, sub) <==> Includes(r, sub)
  {
    var s := p + r + q;
    forall i: nat | OccursAt(r, sub, i)
      ensures OccursAt(s, sub, |p| + i)
    {
      assert s[|p| + i..|p| + i + |sub|] == r[i..i + |sub|];
    }
    forall i: nat | OccursAt(s, sub, i)
      ensures |p| <= i && OccursAt(r, sub, i - |p|)
    {
      CharOfMatch(s, sub, i, 0);
      var e := |p| + |r|;
      if i <= e < i + |sub| {
        CharOfMatch(s, sub, i, e - i);
      }
      assert s[i..i + |sub|] == r[i - |p|..i - |p| + |sub|];
    }
  }
}

/**
 * The JavaScript string operations the application relies on: `toLowerCase` (on ASCII),
 * `trim`, `includes`, `startsWith`, the regular-expression classes `\s` and `\d`, and
 * decimal conversion of non-negative integers (`Number.prototype.toString`, `parseInt(_, 10)`).
 */
module JsText {

  /**
   * JavaScript white space and line terminators: the set `String.prototype.trim` removes
   * and the regular-expression class `\s` matches (ECMA-262 WhiteSpace and LineTerminator).
   */
  predicate IsJsSpace(c: char) {
    || c == ' ' || c == '\t' || c == '\n' || c == '\r' || c == '\U{B}' || c == '\U{C}'
    || c == '\U{A0}' || c == '\U{1680}' || ('\U{2000}' <= c <= '\U{200A}')
    || c == '\U{2028}' || c == '\U{2029}' || c == '\U{202F}' || c == '\U{205F}'
    || c == '\U{3000}' || c == '\U{FEFF}'
  }

  predicate AllSpace(s: string) {
    forall i :: 0 <= i < |s| ==> IsJsSpace(s[i])
  }

  /** The regular-expression class `\d`. */
  predicate IsDigit(c: char) {
    '0' <= c <= '9'
  }

  predicate AllDigits(s: string) {
    forall i :: 0 <= i < |s| ==> IsDigit(s[i])
  }

  /** `toLowerCase` restricted to ASCII: upper-case Latin letters map to lower case, all else is kept. */
  function LowerChar(c: char): char {
    if 'A' <= c <= 'Z' then (c as int + 32) as char else c
  }

  function Lower(s: string): (r: string)
    ensures |r| == |s|
  {
    seq(|s|, i requires 0 <= i < |s| => LowerChar(s[i]))
  }

  /** Lower-casing commutes with taking a slice. */
  lemma LowerSlice(s: string, a: nat, b: nat)
    requires a <= b <= |s|
    ensures Lower(s[a..b]) == Lower(s)[a..b]
  {
  }

  /** Lower-casing never turns a space into a non-space or back. */
  lemma LowerKeepsSpaces(s: string)
    ensures forall i :: 0 <= i < |s| ==> (IsJsSpace(Lower(s)[i]) <==> IsJsSpace(s[i]))
  {
  }

  /** `String.prototype.includes`: `sub` occurs in `s` at some position (a case-sensitive test). */
  predicate Includes(s: string, sub: string)
    decreases |s|
  {
    sub <= s || (s != [] && Includes(s[1..], sub))
  }

  /** An occurrence at position `i` makes Includes hold. */
  lemma {:induction false} IncludesWitness(s: string, sub: string, i: nat)
    requires i <= |s| && sub <= s[i..]
    ensures Includes(s, sub)
    decreases i
  {
    if i > 0 {
      assert s[1..][i - 1..] == s[i..];
      IncludesWitness(s[1..], sub, i - 1);
    }
  }

  /** When Includes holds, an occurrence position exists. */
  lemma {:induction false} IncludesPosition(s: string, sub: string) returns (i: nat)
    requires Includes(s, sub)
    ensures i <= |s| && sub <= s[i..]
    decreases |s|
  {
    if sub <= s {
      i := 0;
    } else {
      var j := IncludesPosition(s[1..], sub);
      i := j + 1;
      assert s[1..][j..] == s[i..];
    }
  }

  /** Includes agrees with its positional definition. */
  lemma IncludesAt(s: string, sub: string)
    ensures Includes(s, sub) <==> exists i :: 0 <= i <= |s| && sub <= s[i..]
  {
    if Includes(s, sub) {
      var i := IncludesPosition(s, sub);
    }
    if exists i :: 0 <= i <= |s| && sub <= s[i..] {
      var i :| 0 <= i <= |s| && sub <= s[i..];
      IncludesWitness(s, sub, i);
    }
  }

  /** Every character of an included string occurs in the string searched. */
  lemma IncludesChars(s: string, sub: string, c: char)
    requires Includes(s, sub) && c in sub
    ensures c in s
  {
    IncludesAt(s, sub);
    var i :| 0 <= i <= |s| && sub <= s[i..];
    var j :| 0 <= j < |sub| && sub[j] == c;
    assert s[i + j] == c;
  }

  /** A string that lacks one of the characters of `sub` does not include `sub`. */
  lemma ExcludesByChar(s: string, sub: string, c: char)
    requires c in sub && c !in s
    ensures !Includes(s, sub)
  {
    if Includes(s, sub) {
      IncludesChars(s, sub, c);
    }
  }

  /** The empty string is included in every string. */
  lemma IncludesEmpty(s: string)
    ensures Includes(s, "")
  {
    IncludesWitness(s, "", 0);
  }

  /** Length of the run of white space that `s` opens with. */
  function SpaceRun(s: string): (n: nat)
    ensures n <= |s| && AllSpace(s[..n])
    ensures n < |s| ==> !IsJsSpace(s[n])
  {
    if s != [] && IsJsSpace(s[0]) then
      var m := SpaceRun(s[1..]);
      var head := s[..m + 1];
      assert AllSpace(head) by {
        forall i | 0 <= i < |head|
          ensures IsJsSpace(head[i])
        {
          if i > 0 {
            assert head[i] == s[1..][..m][i - 1];
          }
        }
      }
      assert m < |s[1..]| ==> s[m + 1] == s[1..][m];
      m + 1
    else 0
  }

  /** Leading white space removed: the rest of `s` starting at its first non-space character. */
  function TrimStart(s: string): (r: string)
    ensures |r| <= |s| && r == s[|s| - |r|..]
    ensures AllSpace(s[..|s| - |r|])
    ensures r != [] ==> !IsJsSpace(r[0])
  {
    s[SpaceRun(s)..]
  }

  /** Trailing white space removed: `s` up to and including its last non-space character. */
  function TrimEnd(s: string): (r: string)
    ensures |r| <= |s| && r == s[..|r|]
    ensures AllSpace(s[|r|..])
    ensures r != [] ==> !IsJsSpace(r[|r| - 1])
  {
    if s != [] && IsJsSpace(s[|s| - 1]) then
      var r := TrimEnd(s[..|s| - 1]);
      assert s[..|s| - 1][..|r|] == s[..|r|];
      assert AllSpace(s[|r|..]) by {
        forall i | 0 <= i < |s| - |r|
          ensures IsJsSpace(s[|r|..][i])
        {
          if i < |s| - 1 - |r| {
            assert s[|r|..][i] == s[..|s| - 1][|r|..][i];
          }
        }
      }
      r
    else s
  }

  /** `String.prototype.trim`. */
  function Trim(s: string): string {
    TrimEnd(TrimStart(s))
  }

  /** Trimming the end never cuts into a prefix that ends in a non-space character. */
  lemma TrimEndKeepsPrefix(s: string, p: string)
    requires p <= s && p != [] && !IsJsSpace(p[|p| - 1])
    ensures p <= TrimEnd(s)
  {
    var r := TrimEnd(s);
    if |r| < |p| {
      assert false;
    }
    assert r[..|p|] == s[..|p|];
  }

  /** When exactly the first `k` characters of `s` are white space, TrimStart drops exactly them. */
  lemma {:induction false} TrimStartDrops(s: string, k: nat)
    requires k <= |s| && AllSpace(s[..k])
    requires k < |s| ==> !IsJsSpace(s[k])
    ensures TrimStart(s) == s[k..]
    decreases k
  {
    if k > 0 {
      assert s[..k][0] == s[0];
      assert s[1..][..k - 1] == s[1..k];
      var rest := s[1..][..k - 1];
      assert AllSpace(rest) by {
        forall i | 0 <= i < |rest|
          ensures IsJsSpace(rest[i])
        {
          assert rest[i] == s[..k][i + 1];
        }
      }
      TrimStartDrops(s[1..], k - 1);
      assert s[1..][k - 1..] == s[k..];
    }
  }

  /** A keyword that the trimmed text starts with follows the leading white space of `s`. */
  lemma TrimStartsWithOnly(s: string, kw: string)
    requires kw <= Trim(s)
    ensures AllSpace(s[..|s| - |TrimStart(s)|]) && kw <= s[|s| - |TrimStart(s)|..]
  {
    var t := TrimStart(s);
    assert Trim(s) == t[..|Trim(s)|];
    assert kw <= t;
  }

  /** A keyword that ends in a non-space and follows leading white space survives trimming. */
  lemma TrimStartsWithIf(s: string, kw: string, k: nat)
    requires kw != [] && !IsJsSpace(kw[0]) && !IsJsSpace(kw[|kw| - 1])
    requires k <= |s| && AllSpace(s[..k]) && kw <= s[k..]
    ensures kw <= Trim(s)
  {
    assert s[k] == kw[0];
    TrimStartDrops(s, k);
    TrimEndKeepsPrefix(TrimStart(s), kw);
  }

  /**
   * `s.trim().startsWith(kw)` for a keyword that begins and ends with a non-space
   * holds exactly when `kw` follows a run of leading white space in `s`.
   */
  lemma TrimStartsWith(s: string, kw: string)
    requires kw != [] && !IsJsSpace(kw[0]) && !IsJsSpace(kw[|kw| - 1])
    ensures kw <= Trim(s) <==> exists k :: 0 <= k <= |s| && AllSpace(s[..k]) && kw <= s[k..]
  {
    if kw <= Trim(s) {
      TrimStartsWithOnly(s, kw);
      var m := |s| - |TrimStart(s)|;
      assert 0 <= m <= |s| && AllSpace(s[..m]) && kw <= s[m..];
    }
    if exists k :: 0 <= k <= |s| && AllSpace(s[..k]) && kw <= s[k..] {
      var k :| 0 <= k <= |s| && AllSpace(s[..k]) && kw <= s[k..];
      TrimStartsWithIf(s, kw, k);
    }
  }

  /** The digit character for a value below ten. */
  function DigitChar(d: nat): (c: char)
    requires d < 10
    ensures IsDigit(c)
  {
    ('0' as int + d) as char
  }

  function DigitValue(c: char): nat
    requires IsDigit(c)
  {
    c as int - '0' as int
  }

  /** `n.toString()` for a non-negative integer: its shortest decimal numeral. */
  function DecimalString(n: nat): (s: string)
    ensures s != [] && AllDigits(s)
    ensures |s| > 1 ==> s[0] != '0'
  {
    if n < 10 then [DigitChar(n)] else DecimalString(n / 10) + [DigitChar(n % 10)]
  }

  /** `parseInt(s, 10)` for a string of decimal digits. */
  function ParseDecimal(s: string): nat
    requires AllDigits(s)
  {
    if s == [] then 0 else 10 * ParseDecimal(s[..|s| - 1]) + DigitValue(s[|s| - 1])
  }

  lemma {:induction false} DecimalRoundTrip(n: nat)
    ensures ParseDecimal(DecimalString(n)) == n
  {
    if n >= 10 {
      DecimalRoundTrip(n / 10);
      var s := DecimalString(n);
      assert s[..|s| - 1] == DecimalString(n / 10);
    }
  }

  /** Distinct numbers have distinct numerals. */
  lemma DecimalInjective(m: nat, n: nat)
    requires DecimalString(m) == DecimalString(n)
    ensures m == n
  {
    DecimalRoundTrip(m);
    DecimalRoundTrip(n);
  }
}

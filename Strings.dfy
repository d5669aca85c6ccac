/**
 * The string primitives the table formatter relies on, with the meaning
 * Python gives them: `str.strip()`, `str(int)`, `in`, `startswith`,
 * `endswith`, ASCII case folding, and the POSIX rules of `os.path.basename`
 * and `os.path.splitext`.
 */
module Strings {
  import opened Wrappers

  /** Python's `str.isspace()`: exactly the characters `str.strip()` removes. */
  predicate IsSpace(ch: char)
  {
    ('\t' <= ch <= '\r') || ('\U{1C}' <= ch <= '\U{1F}') || ch == ' '
    || ch == '\U{85}' || ch == '\U{A0}' || ch == '\U{1680}'
    || ('\U{2000}' <= ch <= '\U{200A}') || ch == '\U{2028}' || ch == '\U{2029}'
    || ch == '\U{202F}' || ch == '\U{205F}' || ch == '\U{3000}'
  }

  /** The regular-expression class `\d`, restricted to ASCII digits. */
  predicate IsDigit(ch: char)
  {
    '0' <= ch <= '9'
  }

  /** `re.fullmatch(r"\d{4}", s)`. */
  predicate IsFourDigits(s: string)
  {
    |s| == 4 && forall i :: 0 <= i < 4 ==> IsDigit(s[i])
  }

  // ---------------------------------------------------------------------
  // strip()
  // ---------------------------------------------------------------------

  /** Every character of `s` is whitespace: what `strip()` turns into "". */
  predicate AllSpace(s: string)
  {
    forall i :: 0 <= i < |s| ==> IsSpace(s[i])
  }

  /** The number of whitespace characters `s` starts with. */
  function LeadingSpace(s: string): (n: nat)
    ensures n <= |s|
    ensures forall i :: 0 <= i < n ==> IsSpace(s[i])
    ensures n < |s| ==> !IsSpace(s[n])
  {
    if s == [] || !IsSpace(s[0]) then 0 else 1 + LeadingSpace(s[1..])
  }

  /** The number of whitespace characters `s` ends with. */
  function TrailingSpace(s: string): (n: nat)
    ensures n <= |s|
    ensures forall i :: |s| - n <= i < |s| ==> IsSpace(s[i])
    ensures n < |s| ==> !IsSpace(s[|s| - 1 - n])
  {
    if s == [] || !IsSpace(s[|s| - 1]) then 0 else 1 + TrailingSpace(s[..|s| - 1])
  }

  /**
   * Python's `s.strip()`: the leading whitespace is skipped, what is kept
   * neither starts nor ends with whitespace, and everything after it is
   * whitespace.
   */
  function Strip(s: string): (r: string)
    ensures LeadingSpace(s) + |r| <= |s|
    ensures r == s[LeadingSpace(s)..LeadingSpace(s) + |r|]
    ensures forall i :: LeadingSpace(s) + |r| <= i < |s| ==> IsSpace(s[i])
    ensures r != [] ==> !IsSpace(r[0]) && !IsSpace(r[|r| - 1])
    ensures r == [] <==> AllSpace(s)
  {
    var a := LeadingSpace(s);
    if a == |s| then [] else s[a..|s| - TrailingSpace(s)]
  }

  /** Stripping twice is stripping once. */
  lemma {:induction false} StripIdempotent(s: string)
    ensures Strip(Strip(s)) == Strip(s)
  {
    var r := Strip(s);
    if r != [] {
      assert LeadingSpace(r) == 0;
      assert r[0..|r|] == r;
      StripOfUnpadded(r);
    }
  }

  /** A string that neither starts nor ends with whitespace is its own strip. */
  lemma StripOfUnpadded(s: string)
    requires s != [] ==> !IsSpace(s[0]) && !IsSpace(s[|s| - 1])
    ensures Strip(s) == s
  {
    if s != [] {
      assert LeadingSpace(s) == 0;
      assert TrailingSpace(s) == 0;
      assert s[0..|s|] == s;
    }
  }

  // ---------------------------------------------------------------------
  // str(int)
  // ---------------------------------------------------------------------

  function DigitChar(d: nat): (ch: char)
    requires d < 10
    ensures IsDigit(ch)
  {
    "0123456789"[d]
  }

  /** `str(n)` for a non-negative integer: its decimal digits, no leading zeros. */
  function NatToString(n: nat): (r: string)
    ensures |r| >= 1
    ensures forall i :: 0 <= i < |r| ==> IsDigit(r[i])
  {
    if n < 10 then [DigitChar(n)] else NatToString(n / 10) + [DigitChar(n % 10)]
  }

  /** Python's `str(i)` for an `int`. */
  function IntToString(i: int): (r: string)
    ensures r != []
    ensures forall k :: 0 <= k < |r| ==> !IsSpace(r[k])
  {
    if i < 0 then "-" + NatToString(-i) else NatToString(i)
  }

  function Pow10(k: nat): (p: nat)
    ensures p >= 1
  {
    if k == 0 then 1 else 10 * Pow10(k - 1)
  }

  /** `str(n)` has at most `k` digits exactly when `n < 10^k`. */
  lemma {:induction false} NatToStringLength(n: nat, k: nat)
    requires k >= 1
    ensures |NatToString(n)| <= k <==> n < Pow10(k)
  {
    if n >= 10 {
      if k == 1 {
        assert |NatToString(n)| == |NatToString(n / 10)| + 1;
        assert Pow10(1) == 10;
      } else {
        NatToStringLength(n / 10, k - 1);
        assert |NatToString(n)| == |NatToString(n / 10)| + 1;
      }
    } else {
      assert Pow10(k) >= 10 by { PowAtLeastTen(k); }
    }
  }

  lemma {:induction false} PowAtLeastTen(k: nat)
    requires k >= 1
    ensures Pow10(k) >= 10
  {
    if k > 1 { PowAtLeastTen(k - 1); }
  }

  /** `str(i)` is four digits exactly for the integers 1000..9999. */
  lemma IntToStringFourDigits(i: int)
    ensures IsFourDigits(IntToString(i)) <==> 1000 <= i <= 9999
  {
    if i >= 0 {
      NatToStringLength(i, 4);
      NatToStringLength(i, 3);
      assert Pow10(4) == 10000 && Pow10(3) == 1000;
    } else {
      assert IntToString(i)[0] == '-';
    }
  }

  // ---------------------------------------------------------------------
  // in, startswith, endswith, lower()
  // ---------------------------------------------------------------------

  predicate OccursAt(s: string, t: string, i: nat)
  {
    i + |t| <= |s| && s[i..i + |t|] == t
  }

  /** Python's `t in s` for strings. */
  predicate Contains(s: string, t: string)
  {
    exists i: nat | i <= |s| :: OccursAt(s, t, i)
  }

  predicate StartsWith(s: string, t: string)
  {
    |t| <= |s| && s[..|t|] == t
  }

  predicate EndsWith(s: string, t: string)
  {
    |t| <= |s| && s[|s| - |t|..] == t
  }

  function LowerChar(ch: char): char
  {
    if 'A' <= ch <= 'Z' then (ch as int + 32) as char else ch
  }

  /** `s.lower()`, folding ASCII letters only. */
  function Lower(s: string): string
  {
    seq(|s|, i requires 0 <= i < |s| => LowerChar(s[i]))
  }

  // ---------------------------------------------------------------------
  // os.path.basename, os.path.splitext (POSIX rules)
  // ---------------------------------------------------------------------

  /** The index of the last occurrence of `ch` in `s`, if any. */
  function LastIndexOf(s: string, ch: char): (r: Option<nat>)
    ensures r.Some? ==> r.value < |s| && s[r.value] == ch
    ensures r.Some? ==> forall i :: r.value < i < |s| ==> s[i] != ch
    ensures r.None? ==> forall i :: 0 <= i < |s| ==> s[i] != ch
  {
    if s == [] then None
    else if s[|s| - 1] == ch then Some(|s| - 1)
    else LastIndexOf(s[..|s| - 1], ch)
  }

  /** `s` holds no path separator. */
  predicate NoSlash(s: string)
  {
    forall i :: 0 <= i < |s| ==> s[i] != '/'
  }

  lemma NoSlashConcat(a: string, b: string)
    requires NoSlash(a) && NoSlash(b)
    ensures NoSlash(a + b)
  {
    assert forall i :: |a| <= i < |a + b| ==> (a + b)[i] == b[i - |a|];
  }

  /** `os.path.basename(p)`: the part of `p` after its last `/`. */
  function Basename(p: string): (b: string)
    ensures |b| <= |p| && b == p[|p| - |b|..]
    ensures NoSlash(b)
    ensures |b| < |p| ==> p[|p| - |b| - 1] == '/'
  {
    if p == [] || p[|p| - 1] == '/' then [] else Basename(p[..|p| - 1]) + [p[|p| - 1]]
  }

  /** The base name is the only slash-free suffix preceded by `/` or by nothing. */
  lemma BasenameUnique(p: string, b: string)
    requires |b| <= |p| && b == p[|p| - |b|..]
    requires NoSlash(b)
    requires |b| < |p| ==> p[|p| - |b| - 1] == '/'
    ensures Basename(p) == b
  {
  }

  /** A tail without `/` stays in the base name. */
  lemma BasenameAppend(x: string, y: string)
    requires NoSlash(y)
    ensures Basename(x + y) == Basename(x) + y
  {
    var a := Basename(x);
    SuffixOfConcat(x, a, y);
    NoSlashConcat(a, y);
    BasenameUnique(x + y, a + y);
  }

  /** A suffix `a` of `x` extends to the suffix `a + y` of `x + y`, with the same character before it. */
  lemma SuffixOfConcat(x: string, a: string, y: string)
    requires |a| <= |x| && a == x[|x| - |a|..]
    ensures |a + y| <= |x + y| && a + y == (x + y)[|x + y| - |a + y|..]
    ensures |a| < |x| ==> (x + y)[|x + y| - |a + y| - 1] == x[|x| - |a| - 1]
  {
  }

  /** A name without `/` is its own base name. */
  lemma BasenameOfPlainName(p: string)
    requires NoSlash(p)
    ensures Basename(p) == p
  {
    BasenameAppend([], p);
    assert [] + p == p;
  }

  /**
   * The dot at `d` starts the extension of `p` in the sense of
   * `os.path.splitext`: no `.` and no `/` follow it, and some character other
   * than `.` and `/` precedes it in the same path component, so that the
   * leading dots of a name such as ".bashrc" are not an extension.
   */
  predicate ExtensionDot(p: string, d: int)
  {
    && 0 <= d < |p| && p[d] == '.'
    && (forall i :: d < i < |p| ==> p[i] != '.' && p[i] != '/')
    && exists j :: 0 <= j < d && p[j] != '.' && p[j] != '/' && forall k :: j < k < d ==> p[k] != '/'
  }

  /**
   * `os.path.splitext(p)[0]`: `p` without its extension. The last `.` is cut
   * off together with what follows it exactly when it lies in the last path
   * component and something other than leading dots precedes it there.
   */
  function SplitExtRoot(p: string): (r: string)
    ensures |r| <= |p| && r == p[..|r|]
    ensures |r| < |p| ==> ExtensionDot(p, |r|)
    ensures |r| == |p| ==> forall d :: !ExtensionDot(p, d)
  {
    var sep: int := match LastIndexOf(p, '/') case Some(i) => i case None => -1;
    match LastIndexOf(p, '.')
    case None =>
      assert forall d :: !ExtensionDot(p, d);
      p
    case Some(d) =>
      ExtensionDotIsLastDot(p, d);
      ExtensionDotAfterSep(p, d, sep);
      if d > sep && exists j | sep + 1 <= j < d :: p[j] != '.' then p[..d] else p
  }

  /** Only the last dot of a name can start its extension. */
  lemma ExtensionDotIsLastDot(p: string, d: nat)
    requires d < |p| && p[d] == '.'
    requires forall i :: d < i < |p| ==> p[i] != '.'
    ensures forall e :: ExtensionDot(p, e) ==> e == d
  {
  }

  /**
   * With `sep` the last `/` (or -1), the last dot `d` starts the extension
   * exactly when it follows `sep` and a non-dot lies between them.
   */
  lemma ExtensionDotAfterSep(p: string, d: nat, sep: int)
    requires d < |p| && p[d] == '.'
    requires forall i :: d < i < |p| ==> p[i] != '.'
    requires -1 <= sep < |p| && (sep >= 0 ==> p[sep] == '/')
    requires forall i :: sep < i < |p| ==> p[i] != '/'
    ensures ExtensionDot(p, d) <==> d > sep && exists j | sep + 1 <= j < d :: p[j] != '.'
  {
    if d > sep && exists j | sep + 1 <= j < d :: p[j] != '.' {
      var j :| sep + 1 <= j < d && p[j] != '.';
      assert p[j] != '/';
      assert forall k :: j < k < d ==> p[k] != '/';
    }
    if ExtensionDot(p, d) {
      var j :| 0 <= j < d && p[j] != '.' && p[j] != '/' && forall k :: j < k < d ==> p[k] != '/';
      assert sep < j;
    }
  }

  /** Removing a one-dot extension from a name that does not end in `.` or `/`. */
  lemma RootOfExtended(x: string, ext: string)
    requires x != [] && x[|x| - 1] != '.' && x[|x| - 1] != '/'
    requires |ext| >= 1 && ext[0] == '.'
    requires forall i :: 1 <= i < |ext| ==> ext[i] != '.' && ext[i] != '/'
    ensures SplitExtRoot(x + ext) == x
  {
    var p := x + ext;
    var d := LastIndexOf(p, '.');
    assert p[|x|] == '.';
    assert d == Some(|x|);
    var s := LastIndexOf(p, '/');
    assert s.Some? ==> s.value < |x| - 1;
    assert p[|x| - 1] != '.';
    assert p[..|x|] == x;
  }
}

/**
 * File-name conventions of the table formatter: the period token embedded in
 * an input file name (`YYYY-MM`, `YYYY-Qn`, `YYYY-Hn`, `YYYY-JJ`), its
 * classification as annual and its year, the filter that selects input files
 * of the four table kinds, and the dispatch from file name to table kind.
 */
module Naming {
  import opened Wrappers
  import opened Strings

  /** The four table kinds the formatter knows (Tabelle 1, 2, 3 and 5). */
  datatype TableKind = T1 | T2 | T3 | T5

  /** The file-name prefix of each table kind's raw input. */
  function Prefix(k: TableKind): string
  {
    match k
    case T1 => "Tabelle-1-Land"
    case T2 => "Tabelle-2-Land"
    case T3 => "Tabelle-3-Land"
    case T5 => "Tabelle-5-Land"
  }

  /** The list of relevant prefixes, in the order the source lists them. */
  const RelevantPrefixes: seq<string> := [Prefix(T1), Prefix(T2), Prefix(T3), Prefix(T5)]

  // ---------------------------------------------------------------------
  // Period tokens
  // ---------------------------------------------------------------------

  /** The two characters after the dash: `\d{2}`, `Q\d`, `H\d` or `JJ`. */
  predicate IsPeriodSuffix(a: char, b: char)
  {
    (IsDigit(a) && IsDigit(b)) || ((a == 'Q' || a == 'H') && IsDigit(b)) || (a == 'J' && b == 'J')
  }

  /** `\d{4}-(?:\d{2}|Q\d|H\d|JJ)` matches the seven characters of `s` from `i`. */
  predicate TokenAt(s: string, i: int)
  {
    0 <= i && i + 7 <= |s|
    && IsDigit(s[i]) && IsDigit(s[i + 1]) && IsDigit(s[i + 2]) && IsDigit(s[i + 3])
    && s[i + 4] == '-' && IsPeriodSuffix(s[i + 5], s[i + 6])
  }

  /** A whole period token. */
  predicate IsToken(t: string)
  {
    |t| == 7 && TokenAt(t, 0)
  }

  /** The two searches of the filename parser that `re.search` scans left to right. */
  datatype Pattern =
    | Enclosed  // `_(TOKEN)_`
    | Year20    // `(20\d{2}-(...))`

  predicate MatchesAt(b: string, i: int, pat: Pattern)
  {
    match pat
    case Enclosed => 0 <= i && i + 9 <= |b| && b[i] == '_' && TokenAt(b, i + 1) && b[i + 8] == '_'
    case Year20 => TokenAt(b, i) && b[i] == '2' && b[i + 1] == '0'
  }

  /** The leftmost match of `pat` at or after `from`. */
  function FirstMatch(b: string, pat: Pattern, from: nat): (r: Option<nat>)
    ensures r.Some? ==> from <= r.value && MatchesAt(b, r.value, pat)
    ensures r.Some? ==> forall j :: from <= j < r.value ==> !MatchesAt(b, j, pat)
    ensures r.None? ==> forall j :: from <= j ==> !MatchesAt(b, j, pat)
    decreases |b| - from
  {
    if from >= |b| then
      assert forall j :: from <= j ==> !MatchesAt(b, j, pat);
      None
    else if MatchesAt(b, from, pat) then Some(from)
    else FirstMatch(b, pat, from + 1)
  }

  /**
   * The start of a token that `_(TOKEN)$` finds: `$` matches at the very end
   * of the string and also just before a final line feed.
   */
  function TrailingToken(b: string): (r: Option<nat>)
    ensures r.Some? ==> TokenAt(b, r.value) && r.value >= 1 && b[r.value - 1] == '_'
    ensures r.Some? ==> r.value + 7 == |b| || (r.value + 8 == |b| && b[|b| - 1] == '\n')
    ensures r.None? ==> !(|b| >= 8 && b[|b| - 8] == '_' && TokenAt(b, |b| - 7))
    ensures r.None? ==> !(|b| >= 9 && b[|b| - 1] == '\n' && b[|b| - 9] == '_' && TokenAt(b, |b| - 8))
  {
    if |b| >= 9 && b[|b| - 1] == '\n' && b[|b| - 9] == '_' && TokenAt(b, |b| - 8) then Some(|b| - 8)
    else if |b| >= 8 && b[|b| - 8] == '_' && TokenAt(b, |b| - 7) then Some(|b| - 7)
    else None
  }

  /** The base name without its extension, which the filename parser searches. */
  function Stem(filename: string): (r: string)
    ensures NoSlash(r) && StartsWith(Basename(filename), r)
  {
    SplitExtRoot(Basename(filename))
  }

  /** `parse_period_from_filename`: the period token of a file name, or "" when there is none. */
  function ParsePeriodFromFilename(filename: string): (r: string)
    ensures r == "" || IsToken(r)
    ensures r != "" ==> Contains(Stem(filename), r)
  {
    ParsePeriodOfStem(Stem(filename))
  }

  /**
   * The three searches of the filename parser on the stem `b`, in order.
   * Whatever comes back is "" or a token found in the stem.
   */
  function ParsePeriodOfStem(b: string): (r: string)
    ensures r == "" || IsToken(r)
    ensures r != "" ==> Contains(b, r)
  {
    match TrailingToken(b)
    case Some(i) => TokenSlice(b, i)
    case None =>
      match FirstMatch(b, Enclosed, 0)
      case Some(i) => TokenSlice(b, i + 1)
      case None =>
        match FirstMatch(b, Year20, 0)
        case Some(i) => TokenSlice(b, i)
        case None => ""
  }

  function TokenSlice(b: string, i: int): (t: string)
    requires TokenAt(b, i)
    ensures IsToken(t) && Contains(b, t) && t == b[i..i + 7]
  {
    var t := b[i..i + 7];
    assert OccursAt(b, t, i);
    t
  }

  /**
   * The first search has priority: a token preceded by `_` at the end of the
   * stem is the result; and the result is "" exactly when none of the three
   * searches finds anything.
   */
  lemma ParsePeriodPriority(b: string)
    ensures TrailingToken(b).Some? ==>
        ParsePeriodOfStem(b) == b[TrailingToken(b).value..TrailingToken(b).value + 7]
    ensures ParsePeriodOfStem(b) == "" <==>
        && TrailingToken(b).None?
        && (forall i: nat :: !MatchesAt(b, i, Enclosed))
        && (forall i: nat :: !MatchesAt(b, i, Year20))
  {
    if TrailingToken(b).None? {
      var e := FirstMatch(b, Enclosed, 0);
      if e.Some? {
        assert !(forall i: nat :: !MatchesAt(b, i, Enclosed));
      } else {
        var y := FirstMatch(b, Year20, 0);
        if y.Some? {
          assert !(forall i: nat :: !MatchesAt(b, i, Year20));
        }
      }
    }
  }

  /** Without a trailing token, the leftmost `_TOKEN_` gives the result. */
  lemma ParsePeriodEnclosed(b: string, i: nat)
    requires TrailingToken(b).None?
    requires MatchesAt(b, i, Enclosed)
    requires forall j: nat :: j < i ==> !MatchesAt(b, j, Enclosed)
    ensures ParsePeriodOfStem(b) == b[i + 1..i + 8]
  {
    var e := FirstMatch(b, Enclosed, 0);
    assert e.Some?;
    assert e.value == i;
  }

  /** With neither of the first two, the leftmost token of a year "20.." gives the result. */
  lemma ParsePeriodYear20(b: string, i: nat)
    requires TrailingToken(b).None?
    requires forall j: nat :: !MatchesAt(b, j, Enclosed)
    requires MatchesAt(b, i, Year20)
    requires forall j: nat :: j < i ==> !MatchesAt(b, j, Year20)
    ensures ParsePeriodOfStem(b) == b[i..i + 7]
  {
    assert FirstMatch(b, Enclosed, 0).None?;
    var y := FirstMatch(b, Year20, 0);
    assert y.Some?;
    assert y.value == i;
  }

  /**
   * The input naming convention `<prefix>_<token>.xlsx` round-trips: the
   * parser gives back the token, whatever the (slash-free) stem in front.
   */
  lemma ParsePeriodOfConventionalName(front: string, token: string)
    requires IsToken(token)
    requires NoSlash(front)
    ensures ParsePeriodFromFilename(front + "_" + token + ".xlsx") == token
  {
    var x := front + "_" + token;
    ConventionalStem(x, token);
    StemOfExtended(x, ".xlsx");
    TrailingTokenOfStem(front + "_", token);
  }

  /** The stem `<front>_<token>` has no `/` and ends in neither `.` nor `/`. */
  lemma ConventionalStem(front: string, token: string)
    requires IsToken(token)
    requires NoSlash(front)
    ensures var x := front + "_" + token;
      NoSlash(x) && x[|x| - 1] != '.'
  {
    assert NoSlash("_");
    TokenHasNoSlash(token);
    NoSlashConcat(front, "_");
    NoSlashConcat(front + "_", token);
  }

  /** The stem of a slash-free name that ends in a one-dot extension. */
  lemma StemOfExtended(x: string, ext: string)
    requires NoSlash(x) && x != [] && x[|x| - 1] != '.'
    requires ext == ".xlsx"
    ensures Stem(x + ext) == x
  {
    NoSlashConcat(x, ext);
    BasenameOfPlainName(x + ext);
    RootOfExtended(x, ext);
  }

  /** A stem that ends in `_<token>` parses to that token by the first search. */
  lemma TrailingTokenOfStem(head: string, token: string)
    requires IsToken(token) && head != [] && head[|head| - 1] == '_'
    ensures ParsePeriodOfStem(head + token) == token
  {
    var x := head + token;
    assert x[|x| - 8] == '_';
    assert x[|x| - 7..] == token;
    assert TokenAt(x, |x| - 7);
    assert x[|x| - 1] != '\n';
  }

  // ---------------------------------------------------------------------
  // period_is_jj, year_from_period
  // ---------------------------------------------------------------------

  predicate IsJ(ch: char)
  {
    ch == 'J' || ch == 'j'
  }

  /** `period_is_jj`: the period upper-cased ends with "JJ", or it is a bare year. */
  function PeriodIsJJ(p: string): (r: bool)
    ensures r <==> EndsWithJJ(p) || IsFourDigits(Strip(p))
  {
    LowerEndsWithJJ(p);
    EndsWith(Lower(p), "jj") || IsFourDigits(Strip(p))
  }

  /** The last two characters are `J` or `j`. */
  predicate EndsWithJJ(p: string)
  {
    |p| >= 2 && IsJ(p[|p| - 2]) && IsJ(p[|p| - 1])
  }

  lemma LowerEndsWithJJ(p: string)
    ensures EndsWith(Lower(p), "jj") <==> EndsWithJJ(p)
  {
    var l := Lower(p);
    if |p| >= 2 {
      assert l[|p| - 2..] == [l[|p| - 2], l[|p| - 1]];
    }
  }

  /** The part of `s` before its first `-` (Python's `s.split("-")[0]`). */
  function BeforeDash(s: string): (r: string)
    ensures |r| <= |s| && r == s[..|r|]
    ensures forall i :: 0 <= i < |r| ==> r[i] != '-'
    ensures |r| < |s| ==> s[|r|] == '-'
    ensures |r| == |s| <==> '-' !in s
  {
    if s == [] || s[0] == '-' then [] else [s[0]] + BeforeDash(s[1..])
  }

  /** `year_from_period`: the stripped period up to its first `-`. */
  function YearFromPeriod(p: string): (r: string)
    ensures YearOfStripped(Strip(p), r)
  {
    var s := Strip(p);
    if IsFourDigits(s) then
      assert s[0] != '-' && s[1] != '-' && s[2] != '-' && s[3] != '-';
      s
    else if EndsWith(s, "-JJ") then
      assert s[|s| - 3] == '-';
      BeforeDash(s)
    else if '-' in s then BeforeDash(s)
    else s
  }

  /** `r` is the part of `s` before its first `-`, or all of `s` when it has none. */
  predicate YearOfStripped(s: string, r: string)
  {
    && ('-' in s ==> |r| < |s| && r == s[..|r|] && s[|r|] == '-' && '-' !in r)
    && ('-' !in s ==> r == s)
  }

  /** A period token is annual exactly when it ends with "JJ". */
  lemma TokenIsJJ(t: string)
    requires IsToken(t)
    ensures PeriodIsJJ(t) <==> t[5..] == "JJ"
  {
    StripOfUnpadded(t);
    assert !IsFourDigits(Strip(t));
  }

  /** The year of a period token is its first four characters, and a bare year is its own year. */
  lemma YearOfToken(t: string)
    ensures IsToken(t) ==> YearFromPeriod(t) == t[..4] && IsFourDigits(YearFromPeriod(t))
    ensures IsFourDigits(t) ==> YearFromPeriod(t) == t
  {
    if IsToken(t) {
      StripOfUnpadded(t);
      TokenYear(t, YearFromPeriod(t));
    }
    if IsFourDigits(t) {
      StripOfUnpadded(t);
      assert t[0] != '-' && t[1] != '-' && t[2] != '-' && t[3] != '-';
    }
  }

  lemma TokenYear(t: string, r: string)
    requires IsToken(t) && YearOfStripped(t, r)
    ensures r == t[..4] && IsFourDigits(r)
  {
    assert t[4] == '-';
    assert |r| == 4;
  }

  // ---------------------------------------------------------------------
  // is_relevant_file and the dispatch of process_input_folder
  // ---------------------------------------------------------------------

  /** The base name starts with one of the four `Tabelle-N-Land` prefixes. */
  predicate HasRelevantPrefix(base: string)
  {
    exists i | 0 <= i < |RelevantPrefixes| :: StartsWith(base, RelevantPrefixes[i])
  }

  /** `is_relevant_file`: an `.xlsx` input, not an output of this tool, of a known table kind. */
  predicate IsRelevantFile(filename: string)
  {
    var base := Basename(filename);
    EndsWith(Lower(filename), ".xlsx")
    && !(EndsWith(base, "_g.xlsx") || EndsWith(base, "_INTERN.xlsx"))
    && HasRelevantPrefix(base)
  }

  /** The table kind whose handler a base name is given to (first prefix that matches). */
  function DispatchKind(base: string): (r: Option<TableKind>)
    ensures r.Some? ==> StartsWith(base, Prefix(r.value))
    ensures r.None? <==> !HasRelevantPrefix(base)
  {
    if StartsWith(base, Prefix(T1)) then
      assert StartsWith(base, RelevantPrefixes[0]);
      Some(T1)
    else if StartsWith(base, Prefix(T2)) then
      assert StartsWith(base, RelevantPrefixes[1]);
      Some(T2)
    else if StartsWith(base, Prefix(T3)) then
      assert StartsWith(base, RelevantPrefixes[2]);
      Some(T3)
    else if StartsWith(base, Prefix(T5)) then
      assert StartsWith(base, RelevantPrefixes[3]);
      Some(T5)
    else
      assert !HasRelevantPrefix(base) by {
        forall i | 0 <= i < |RelevantPrefixes| ensures !StartsWith(base, RelevantPrefixes[i]) {
          assert RelevantPrefixes[i] in {Prefix(T1), Prefix(T2), Prefix(T3), Prefix(T5)};
        }
      }
      None
  }

  /** Every relevant file has a handler: the "not implemented" branch is never taken for one. */
  lemma RelevantFileIsDispatched(filename: string)
    requires IsRelevantFile(filename)
    ensures DispatchKind(Basename(filename)).Some?
  {
  }

  /** The tool's own outputs, `<base>_g.xlsx` and `<base>_INTERN.xlsx`, are never taken as input. */
  lemma {:induction false} OutputsAreNotRelevant(base: string)
    ensures !IsRelevantFile(base + "_g.xlsx")
    ensures !IsRelevantFile(base + "_INTERN.xlsx")
  {
    OutputIsNotRelevant(base, "_g.xlsx");
    OutputIsNotRelevant(base, "_INTERN.xlsx");
  }

  lemma OutputIsNotRelevant(base: string, suffix: string)
    requires suffix == "_g.xlsx" || suffix == "_INTERN.xlsx"
    ensures !IsRelevantFile(base + suffix)
  {
    assert NoSlash(suffix);
    BasenameAppend(base, suffix);
    var b := Basename(base + suffix);
    assert b == Basename(base) + suffix;
    assert b[|b| - |suffix|..] == suffix;
    assert EndsWith(b, suffix);
  }

  lemma TokenHasNoSlash(t: string)
    requires IsToken(t)
    ensures NoSlash(t)
  {
  }

  lemma PrefixFacts(k: TableKind)
    ensures |Prefix(k)| == 14 && NoSlash(Prefix(k))
    ensures forall j :: 0 <= j < 14 ==> Prefix(k)[j] != 'J'
  {
    match k
    case T1 =>
    case T2 =>
    case T3 =>
    case T5 =>
  }

  lemma LowerKeepsSuffix(s: string, t: string)
    requires EndsWith(s, t)
    requires forall i :: 0 <= i < |t| ==> LowerChar(t[i]) == t[i]
    ensures EndsWith(Lower(s), t)
  {
    var l := Lower(s);
    forall i | 0 <= i < |t| ensures l[|s| - |t| + i] == t[i] {
      assert s[|s| - |t| + i] == t[i];
    }
    assert l[|s| - |t|..] == t;
  }

  /** A conventionally named input of kind `k` passes the filter and goes to `k`'s handler. */
  lemma ConventionalNameIsRelevant(k: TableKind, token: string)
    requires IsToken(token)
    ensures var name := Prefix(k) + "_" + token + ".xlsx";
      IsRelevantFile(name) && DispatchKind(Basename(name)) == Some(k)
  {
    ConventionalNameShape(k, token);
    RelevantByShape(Prefix(k) + "_" + token + ".xlsx", k);
  }

  /** A slash-free `.xlsx` name with a table prefix that ends in neither output suffix. */
  lemma RelevantByShape(name: string, k: TableKind)
    requires NoSlash(name) && |name| == 27 && EndsWith(name, ".xlsx")
    requires name[15] != '_' && name[20] != '_' && StartsWith(name, Prefix(k))
    ensures IsRelevantFile(name) && DispatchKind(Basename(name)) == Some(k)
  {
    BasenameOfPlainName(name);
    LowerKeepsSuffix(name, ".xlsx");
    NotAnOutputName(name);
    PrefixIsDispatched(name, k);
  }

  /** `<prefix>_<token>.xlsx` has no `/`, 27 characters, no `_` at 15 and 20, the prefix in front. */
  lemma ConventionalNameShape(k: TableKind, token: string)
    requires IsToken(token)
    ensures var name := Prefix(k) + "_" + token + ".xlsx";
      && NoSlash(name) && |name| == 27 && EndsWith(name, ".xlsx")
      && name[15] != '_' && name[20] != '_' && StartsWith(name, Prefix(k))
  {
    var p := Prefix(k);
    var x := p + "_" + token;
    var name := x + ".xlsx";
    PrefixFacts(k);
    assert NoSlash("_") && NoSlash(".xlsx");
    TokenHasNoSlash(token);
    NoSlashConcat(p, "_");
    NoSlashConcat(p + "_", token);
    NoSlashConcat(x, ".xlsx");
    assert name[15] == token[0] && name[20] == token[5] by {
      assert x[15] == token[0] && x[20] == token[5];
    }
    assert name[..14] == p by {
      assert x[..14] == p;
    }
    assert name[22..] == ".xlsx";
  }

  /** A 27-character name without `_` at 15 and 20 ends in neither output suffix. */
  lemma NotAnOutputName(name: string)
    requires |name| == 27 && name[15] != '_' && name[20] != '_'
    ensures !(EndsWith(name, "_g.xlsx") || EndsWith(name, "_INTERN.xlsx"))
  {
    assert name[20..][0] == name[20];
    assert name[15..][0] == name[15];
  }

  /** A name with a table prefix is relevant by prefix and goes to that table's handler. */
  lemma PrefixIsDispatched(base: string, k: TableKind)
    requires StartsWith(base, Prefix(k))
    ensures HasRelevantPrefix(base) && DispatchKind(base) == Some(k)
  {
    var idx := match k case T1 => 0 case T2 => 1 case T3 => 2 case T5 => 3;
    assert RelevantPrefixes[idx] == Prefix(k);
    assert base[8] == Prefix(k)[8];
  }

  // ---------------------------------------------------------------------
  // The annual decision of Tabelle 1
  // ---------------------------------------------------------------------

  /** `"-JJ" in base`: Tabelle 1's annual files get their public variant from the raw file. */
  predicate IsAnnualBase(base: string)
  {
    Contains(base, "-JJ")
  }

  /** For a conventional base name the substring test agrees with the token's classification. */
  lemma AnnualBaseAgreesWithToken(k: TableKind, token: string)
    requires IsToken(token)
    ensures IsAnnualBase(Prefix(k) + "_" + token) <==> PeriodIsJJ(token)
  {
    var head := Prefix(k) + "_";
    HeadHasNoJ(k);
    TokenIsJJ(token);
    if token[5..] == "JJ" {
      TokenDashJJOccurs(head, token);
    }
    if IsAnnualBase(head + token) {
      var i: nat :| i <= |head + token| && OccursAt(head + token, "-JJ", i);
      DashJJInToken(head, token, i);
    }
  }

  lemma HeadHasNoJ(k: TableKind)
    ensures |Prefix(k) + "_"| == 15
    ensures forall j :: 0 <= j < 15 ==> (Prefix(k) + "_")[j] != 'J'
  {
    PrefixFacts(k);
  }

  /** An annual token's "-JJ" occurs in the base name that ends with it. */
  lemma TokenDashJJOccurs(head: string, token: string)
    requires IsToken(token) && token[5..] == "JJ"
    ensures IsAnnualBase(head + token)
  {
    var base := head + token;
    assert base[|head| + 4..|head| + 7] == token[4..7];
    assert OccursAt(base, "-JJ", |head| + 4);
  }

  /** A "-JJ" after a head without `J` can only be the token's own "-JJ". */
  lemma DashJJInToken(head: string, token: string, i: nat)
    requires IsToken(token)
    requires forall j :: 0 <= j < |head| ==> head[j] != 'J'
    requires OccursAt(head + token, "-JJ", i)
    ensures token[5..] == "JJ"
  {
    var base := head + token;
    assert base[i..i + 3] == "-JJ";
    assert base[i] == '-' && base[i + 1] == 'J' && base[i + 2] == 'J';
    assert i >= |head|;
    assert base[i] == token[i - |head|] && base[i + 1] == token[i + 1 - |head|];
    var t := i - |head|;
    assert token[t] == '-';
    assert t == 4;
    assert token[5] == 'J' && token[6] == 'J';
  }
}

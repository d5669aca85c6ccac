/**
 * The reporting-period label read from a raw sheet: the text in A3, or the
 * first non-blank cell of A1..A10 when A3 is empty, with a bare year
 * rendered as "Jahr <year>".
 */
module PeriodLabel {
  import opened Wrappers
  import opened Strings
  import opened Cells

  /** The first row in `lo..hi` whose column-A cell is non-blank. */
  function FirstNonBlankRow(g: Grid, lo: int, hi: int): (r: Option<int>)
    ensures r.Some? ==> lo <= r.value <= hi && NonBlank(Get(g, r.value, 1))
    ensures r.Some? ==> forall rr :: lo <= rr < r.value ==> !NonBlank(Get(g, rr, 1))
    ensures r.None? ==> forall rr :: lo <= rr <= hi ==> !NonBlank(Get(g, rr, 1))
    decreases hi - lo
  {
    if lo > hi then None
    else if NonBlank(Get(g, lo, 1)) then Some(lo)
    else FirstNonBlankRow(g, lo + 1, hi)
  }

  /**
   * `_extract_period_text(ws, row_guess)`: the stripped text of the guessed
   * row's column-A cell when it holds anything (even blank text), otherwise
   * the stripped text of the first non-blank cell of A1..A10, otherwise "".
   */
  function ExtractPeriodText(g: Grid, rowGuess: int): (t: string)
    ensures Strip(t) == t
    ensures Get(g, rowGuess, 1) != Empty ==> t == Strip(Text(Get(g, rowGuess, 1)))
    ensures Get(g, rowGuess, 1) == Empty ==>
              (t == "" <==> forall rr :: 1 <= rr <= 10 ==> !NonBlank(Get(g, rr, 1)))
    ensures Get(g, rowGuess, 1) == Empty && t != "" ==>
              exists rr :: 1 <= rr <= 10 && NonBlank(Get(g, rr, 1)) && t == Strip(Text(Get(g, rr, 1)))
                           && forall r' :: 1 <= r' < rr ==> !NonBlank(Get(g, r', 1))
  {
    var v := Get(g, rowGuess, 1);
    if v == Empty then
      match FirstNonBlankRow(g, 1, 10)
      case Some(rr) =>
        StripIdempotent(Text(Get(g, rr, 1)));
        NonBlankIsStrippedNonEmpty(Get(g, rr, 1));
        Strip(Text(Get(g, rr, 1)))
      case None => ""
    else
      StripIdempotent(Text(v));
      Strip(Text(v))
  }

  /** `find_period_text`: the label of A3, with a bare four-digit year turned into "Jahr <year>". */
  function FindPeriodText(g: Grid): (r: string)
    ensures var t := ExtractPeriodText(g, 3);
      && (IsFourDigits(t) ==> r == "Jahr " + t)
      && (!IsFourDigits(t) ==> r == t)
  {
    var t := ExtractPeriodText(g, 3);
    if IsFourDigits(Strip(t)) then "Jahr " + Strip(t) else Strip(t)
  }

  /** An annual raw sheet whose A3 holds the year as a number gets the label "Jahr <year>". */
  lemma NumericYearLabel(g: Grid, y: int)
    requires Get(g, 3, 1) == Int(y) && 1000 <= y <= 9999
    ensures FindPeriodText(g) == "Jahr " + IntToString(y)
  {
    var s := IntToString(y);
    StripOfUnpadded(s);
    IntToStringFourDigits(y);
  }

  /** A3 text that is a year with surrounding blanks (" 2025") gets the label "Jahr <year>". */
  lemma PaddedYearLabel(g: Grid, s: string)
    requires Get(g, 3, 1) == Str(s) && IsFourDigits(Strip(s))
    ensures FindPeriodText(g) == "Jahr " + Strip(s)
  {
  }

  /** Any other non-empty A3 is kept as its stripped text. */
  lemma TextLabelKept(g: Grid)
    requires Get(g, 3, 1) != Empty && !IsFourDigits(Strip(Text(Get(g, 3, 1))))
    ensures FindPeriodText(g) == Strip(Text(Get(g, 3, 1)))
  {
  }

  /** The label is empty exactly when A3 holds blank text, or A3 is empty and so is all of A1..A10. */
  lemma {:induction false} EmptyLabel(g: Grid)
    ensures FindPeriodText(g) == "" <==>
      if Get(g, 3, 1) != Empty then !NonBlank(Get(g, 3, 1))
      else forall rr :: 1 <= rr <= 10 ==> !NonBlank(Get(g, rr, 1))
  {
    var t := ExtractPeriodText(g, 3);
    assert IsFourDigits(t) ==> "Jahr " + t != "";
  }
}

/** What `extract_mr_data` guarantees about every line it accepts or
    rejects, beyond the shape of its result: the name, the subvariables, the
    separators, and what a count of zero does to the label. */
module MrLineProperties {
  import opened CText
  import opened MrLine

  /** The set's name is the run of name characters before the `=`. */
  lemma ExtractedNameIsName(line: string)
    requires IsCString(line) && ExtractMrData(line).Ok?
    ensures IsName(ExtractMrData(line).value.name)
    ensures line[..|ExtractMrData(line).value.name|] == ExtractMrData(line).value.name
  {
    SpanEndCovers(line, 0, IsNameChar);
  }

  /** Two white-space characters in a row, from the first name character
      of the subvariable list on, reject the list. */
  lemma {:induction false} TokensRejectDoubleBlank(line: string, start: nat, lead: nat, i: nat)
    requires start <= lead < |line| && IsNameChar(line[lead])
    requires lead <= i && i + 1 < |line| && IsCSpace(line[i]) && IsCSpace(line[i + 1])
    ensures Tokens(line, start, lead).Err?
    decreases |line| - start
  {
    var e := SpanEnd(line, lead, IsNameChar);
    SpanEndCovers(line, lead, IsNameChar);
    if i > e && IsCSpace(line[e]) && e + 1 < |line| && IsNameChar(line[e + 1]) {
      TokensRejectDoubleBlank(line, e + 1, e + 1, i);
    }
  }

  /** `strtol` from a digit reads the same number whatever follows the
      run of digits. */
  lemma StrToLStopsAtRunEnd(line: string, p: nat, end: nat)
    requires p < |line| && IsDigit(line[p]) && SpanEnd(line, p, IsDigit) <= end <= |line|
    ensures StrToL(line, p, end) == StrToL(line, p, SpanEnd(line, p, IsDigit))
  {
    var q := SpanEnd(line, p, IsDigit);
    SpanEndCovers(line, p, IsDigit);
    DigitsValueOfRun(line, p, q, q);
    DigitsValueOfRun(line, p, q, end);
  }

  /** A count whose digits read as zero sets the counted value to -1, and
      the label length is then read from those digits, up to the blank
      after them: it is zero, whatever length the line gives. */
  lemma CountZeroEmptiesLabel(line: string, p: nat, mr: MrSet)
    requires p < |line| && IsDigit(line[p])
    requires StrToL(line, p, SpanEnd(line, p, IsDigit)) == 0
    requires CountedAndRest(line, p, mr).Ok?
    ensures CountedAndRest(line, p, mr).value.countedValue == -1
    ensures CountedAndRest(line, p, mr).value.labelText == []
  {
    var q := SpanEnd(line, p, IsDigit);
    StrToLStopsAtRunEnd(line, p, SpanEnd(line, q + 1, IsDigit));
  }

  /** Every subvariable of an accepted line is a name, except that the
      first carries the blanks that came before it. */
  lemma SubvariablesAreNames(line: string, start: nat)
    requires start <= |line| && Subvariables(line, start).Ok?
    ensures var names := Subvariables(line, start).value;
            var lead := SpanEnd(line, start, IsBlank);
            && (forall i | 0 < i < |names| :: IsName(names[i]))
            && lead - start < |names[0]|
            && (forall m | 0 <= m < lead - start :: names[0][m] == ' ')
            && IsName(names[0][lead - start..])
  {
    var lead := SpanEnd(line, start, IsBlank);
    SpanEndCovers(line, start, IsBlank);
    TokensAreNames(line, start, lead);
    FirstToken(line, start, lead);
  }
}

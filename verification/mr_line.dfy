/** One line of the multiple-response record of an SPSS `.sav` file,
    `name=<type><count> <value> <length> <label> <var1> <var2> ...`, and the
    state machine that splits it into an `mr_set_t`.

    Positions below are indices into the line; the C code sees the same
    text followed by a terminating NUL, which sits at index `|line|`. */
module MrLine {
  import opened ReadstatErrors
  import opened CText

  /** `mr_set_t`: a multiple-response set. `countedValue` is -1 when the
      line gives no counted value. */
  datatype MrSet = MrSet(
    name: string,
    labelText: string,
    mrType: char,
    isDichotomy: bool,
    countedValue: int,
    subvariables: seq<string>)

  /** The all-zero `mr_set_t` that `parse_mr_line` starts from. */
  const ZeroMrSet := MrSet([], [], '\0', false, 0, [])

  // ---------------------------------------------------------------------
  // The subvariable list (machine states 7, 8 and 9)

  /** The subvariables from position `start` of the line on, the name
      characters of the first starting at `lead`. A subvariable ends at the
      end of the line or at one white-space character, which must be
      followed directly by the next name. */
  function Tokens(line: string, start: nat, lead: nat): (r: Result<seq<string>>)
    requires start <= lead < |line| && IsNameChar(line[lead])
    ensures r.Ok? ==> |r.value| > 0
    ensures r.Err? ==> r.error == ErrorBadMrString
    decreases |line| - start
  {
    var e := SpanEnd(line, lead, IsNameChar);
    var token := line[start..e];
    if e == |line| then Ok([token])
    else if IsCSpace(line[e]) && e + 1 < |line| && IsNameChar(line[e + 1]) then
      var rest :- Tokens(line, e + 1, e + 1);
      Ok([token] + rest)
    else Err(ErrorBadMrString)
  }

  /** The subvariable list from position `start` on: blanks, then names.
      The blanks are not skipped over: they stay at the front of the first
      subvariable. */
  function Subvariables(line: string, start: nat): (r: Result<seq<string>>)
    requires start <= |line|
    ensures r.Ok? ==> |r.value| > 0
    ensures r.Err? ==> r.error == ErrorBadMrString
  {
    var p := SpanEnd(line, start, IsBlank);
    if p < |line| && IsNameChar(line[p]) then Tokens(line, start, p)
    else Err(ErrorBadMrString)
  }

  /** Every subvariable but the first is a name, and so is the first when
      no blanks precede it. */
  lemma {:induction false} TokensAreNames(line: string, start: nat, lead: nat)
    requires start <= lead < |line| && IsNameChar(line[lead])
    requires Tokens(line, start, lead).Ok?
    ensures var names := Tokens(line, start, lead).value;
            (forall i | 0 < i < |names| :: IsName(names[i])) && (start == lead ==> IsName(names[0]))
    decreases |line| - start
  {
    var e := SpanEnd(line, lead, IsNameChar);
    SpanEndCovers(line, lead, IsNameChar);
    var names := Tokens(line, start, lead).value;
    assert names[0] == line[start..e];
    if e < |line| {
      TokensAreNames(line, e + 1, e + 1);
      assert names[1..] == Tokens(line, e + 1, e + 1).value;
    }
  }

  /** The first subvariable is the blanks before `lead` followed by a name. */
  lemma FirstToken(line: string, start: nat, lead: nat)
    requires start <= lead < |line| && IsNameChar(line[lead])
    requires forall m | start <= m < lead :: line[m] == ' '
    requires Tokens(line, start, lead).Ok?
    ensures var first := Tokens(line, start, lead).value[0];
            lead - start < |first| && (forall m | 0 <= m < lead - start :: first[m] == ' ')
            && IsName(first[lead - start..])
  {
    var e := SpanEnd(line, lead, IsNameChar);
    SpanEndCovers(line, lead, IsNameChar);
    var first := Tokens(line, start, lead).value[0];
    assert first == line[start..e];
    assert first[lead - start..] == line[lead..e];
  }

  // ---------------------------------------------------------------------
  // The whole line (machine states 1 to 6, then the list)

  /** Only the fields the stage fills in differ between `before` and
      `after`. */
  predicate FillsTail(before: MrSet, after: MrSet) {
    after == before.(labelText := after.labelText, subvariables := after.subvariables)
  }

  /** Label length, label and subvariable list (states 5 and 6, then the
      list). The length digits start at `p`, and the length is read with
      `strtol` from `lengthStart` on, which is `p` or earlier. The character
      after the label is passed over. Where the C code would read past the
      end of the line or copy a negative number of characters, the line is
      rejected. */
  function LabelAndList(line: string, lengthStart: nat, p: nat, mr: MrSet): (r: Result<MrSet>)
    requires lengthStart <= p <= |line|
    ensures r.Err? ==> r.error == ErrorBadMrString
    ensures r.Ok? ==> FillsTail(mr, r.value)
    ensures r.Ok? ==> |r.value.subvariables| > 0
  {
    if p == |line| || !IsDigit(line[p]) then Err(ErrorBadMrString)
    else
      var d := SpanEnd(line, p, IsDigit);
      if d == |line| || line[d] != ' ' then Err(ErrorBadMrString)
      else
        var len := StrToL(line, lengthStart, d);
        if len < 0 || d + 2 + len >= |line| then Err(ErrorBadMrString)
        else
          var subvariables :- Subvariables(line, d + 2 + len);
          Ok(mr.(labelText := line[d + 1..d + 1 + len], subvariables := subvariables))
  }

  /** Counted value, label and list, from position `p` after the type
      character on (state 4 onward). A count of `n != 0` says the next `n`
      characters are the counted value; the character after them is passed
      over, and the label length follows. A count of zero sets the counted
      value to -1 and does not move the start of the label length past the
      count, so the length is read from the count digits onward. */
  function CountedAndRest(line: string, p: nat, mr: MrSet): (r: Result<MrSet>)
    requires p <= |line|
    ensures r.Err? ==> r.error == ErrorBadMrString
    ensures r.Ok? ==> r.value == mr.(countedValue := r.value.countedValue, labelText := r.value.labelText,
                                     subvariables := r.value.subvariables)
    ensures r.Ok? ==> |r.value.subvariables| > 0
  {
    var q := SpanEnd(line, p, IsDigit);
    if q == |line| || line[q] != ' ' then Err(ErrorBadMrString)
    else
      var n := StrToL(line, p, q);
      if n == 0 then LabelAndList(line, p, q + 1, mr.(countedValue := -1))
      else if n < 0 || q + 2 + n >= |line| then Err(ErrorBadMrString)
      else LabelAndList(line, q + 2 + n, q + 2 + n, mr.(countedValue := StrToL(line, q + 1, q + 1 + n)))
  }

  /** The line begins with the set's name, `=`, and its type, `C` or `D`;
      the set is a dichotomy exactly when the type is `D`. */
  predicate StartsWithHeader(line: string, mr: MrSet) {
    && |mr.name| > 0
    && |mr.name| + 1 < |line|
    && line[..|mr.name|] == mr.name
    && line[|mr.name|] == '='
    && line[|mr.name| + 1] == mr.mrType
    && mr.mrType in {'C', 'D'}
    && (mr.isDichotomy <==> mr.mrType == 'D')
  }

  /** The set the header of the line describes, before the rest is read:
      the C code's locals after states 1 to 3. */
  function Header(line: string, e: nat): (mr: MrSet)
    requires e + 1 < |line|
  {
    MrSet(line[..e], [], line[e + 1], line[e + 1] == 'D', -1, [])
  }

  /** `extract_mr_data`: the set the line describes, or
      `READSTAT_ERROR_BAD_MR_STRING`. The line is a C string: the C code
      stops at its first NUL, so a line never holds one. */
  function ExtractMrData(line: string): (r: Result<MrSet>)
    requires IsCString(line)
    ensures r.Ok? ==> StartsWithHeader(line, r.value)
    ensures r.Ok? ==> |r.value.subvariables| > 0
    ensures r.Err? ==> r.error == ErrorBadMrString
  {
    var e := SpanEnd(line, 0, IsNameChar);
    if e == 0 || e == |line| || line[e] != '=' then Err(ErrorBadMrString)
    else if e + 1 == |line| || (line[e + 1] != 'C' && line[e + 1] != 'D') then Err(ErrorBadMrString)
    else CountedAndRest(line, e + 2, Header(line, e))
  }

  /** `parse_mr_line`: the status, and the set; a rejected line leaves the
      zeroed set untouched. */
  function ParseMrLine(line: string): (r: (ReadstatError, MrSet))
    requires IsCString(line)
    ensures r.0 == ReadstatOk || r.0 == ErrorBadMrString
    ensures r.0 == ReadstatOk <==> ExtractMrData(line).Ok?
    ensures r.0 == ReadstatOk ==> r.1 == ExtractMrData(line).value
    ensures r.0 != ReadstatOk ==> r.1 == ZeroMrSet
  {
    match ExtractMrData(line)
    case Ok(mr) => (ReadstatOk, mr)
    case Err(error) => (error, ZeroMrSet)
  }
}

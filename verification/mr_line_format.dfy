/** The writing side of a multiple-response line: the text SPSS stores for
    a set, and the proof that `extract_mr_data` reads every such text back
    as the set it was written from. */
module MrLineFormat {
  import opened ReadstatErrors
  import opened CText
  import opened MrLine

  /** A set that can be written as a line: names from the grammar's name
      characters, type `C` or `D`, a label without NUL, and at least one
      subvariable. */
  predicate ValidMrSet(mr: MrSet) {
    && IsName(mr.name)
    && IsCString(mr.labelText)
    && mr.mrType in {'C', 'D'}
    && (mr.isDichotomy <==> mr.mrType == 'D')
    && mr.countedValue >= -1
    && |mr.subvariables| > 0
    && forall i | 0 <= i < |mr.subvariables| :: IsName(mr.subvariables[i])
  }

  /** Names separated by single blanks. */
  function JoinNames(names: seq<string>): string
    requires |names| > 0
  {
    if |names| == 1 then names[0] else names[0] + (" " + JoinNames(names[1..]))
  }

  /** The count and the counted value: nothing but a blank when there is no
      counted value, otherwise the number of digits of the value, a blank,
      the value's digits and a blank. */
  function CountField(countedValue: int): string
    requires countedValue >= -1
  {
    if countedValue < 0 then " "
    else
      var digits := DecString(countedValue);
      DecString(|digits|) + (" " + (digits + " "))
  }

  /** The label length, the label and the subvariable list, as written. */
  function LabelPart(labelText: string, names: seq<string>): string
    requires |names| > 0
  {
    DecString(|labelText|) + (" " + (labelText + (" " + JoinNames(names))))
  }

  /** The line for a set, without the leading `$` and the line break. */
  function FormatMrLine(mr: MrSet): string
    requires ValidMrSet(mr)
  {
    mr.name + ("=" + ([mr.mrType] + (CountField(mr.countedValue) + LabelPart(mr.labelText, mr.subvariables))))
  }

  // ---------------------------------------------------------------------
  // Reading a formatted line back, stage by stage

  /** A name that ends the line. */
  lemma TokensLast(line: string, start: nat, first: string)
    requires IsName(first) && Occurs(line, start, first) && start + |first| == |line|
    ensures Tokens(line, start, start) == Ok([first])
  {
    OccursHead(line, start, first);
    OccursSlice(line, start, first);
    SpanEndOver(line, start, first, IsNameChar);
  }

  /** A name, a blank, and a list of names that `Tokens` reads. */
  lemma TokensCons(line: string, start: nat, first: string, restNames: seq<string>)
    requires IsName(first) && Occurs(line, start, first) && Occurs(line, start + |first|, " ")
    requires start + |first| + 1 < |line| && IsNameChar(line[start + |first| + 1])
    requires Tokens(line, start + |first| + 1, start + |first| + 1) == Ok(restNames)
    ensures Tokens(line, start, start) == Ok([first] + restNames)
  {
    OccursHead(line, start, first);
    OccursSlice(line, start, first);
    OccursChar(line, start + |first|, ' ');
    SpanEndOver(line, start, first, IsNameChar);
  }

  lemma {:induction false} TokensOfJoin(line: string, start: nat, names: seq<string>)
    requires |names| > 0 && forall i | 0 <= i < |names| :: IsName(names[i])
    requires Occurs(line, start, JoinNames(names)) && start + |JoinNames(names)| == |line|
    ensures start < |line| && IsNameChar(line[start])
    ensures Tokens(line, start, start) == Ok(names)
    decreases |names|
  {
    var first := names[0];
    assert IsName(first);
    OccursConcatLeft(line, start, first, JoinNames(names));
    OccursHead(line, start, first);
    if |names| == 1 {
      TokensLast(line, start, first);
      assert [first] == names;
    } else {
      var rest := names[1..];
      var e := start + |first|;
      OccursConcat(line, start, first, " " + JoinNames(rest));
      OccursConcat(line, e, " ", JoinNames(rest));
      TokensOfJoin(line, e + 1, rest);
      TokensCons(line, start, first, rest);
      assert [first] + rest == names;
    }
  }

  /** The first name of a list appears where the list does. */
  lemma OccursConcatLeft(line: string, start: nat, first: string, joined: string)
    requires |first| <= |joined| && joined[..|first|] == first
    requires Occurs(line, start, joined)
    ensures Occurs(line, start, first)
  {
    OccursConcat(line, start, first, joined[|first|..]);
    assert first + joined[|first|..] == joined;
  }

  lemma SubvariablesOfJoin(line: string, start: nat, names: seq<string>)
    requires |names| > 0 && forall i | 0 <= i < |names| :: IsName(names[i])
    requires Occurs(line, start, JoinNames(names)) && start + |JoinNames(names)| == |line|
    ensures Subvariables(line, start) == Ok(names)
  {
    TokensOfJoin(line, start, names);
    SpanEndAt(line, start, IsBlank, start);
  }

  /** `LabelAndList` accepts once each of its checks passes. */
  lemma LabelAndListAt(line: string, lengthStart: nat, p: nat, d: nat, mr: MrSet, labelText: string, names: seq<string>)
    requires lengthStart <= p < d < |line|
    requires IsDigit(line[p]) && line[d] == ' ' && SpanEnd(line, p, IsDigit) == d
    requires StrToL(line, lengthStart, d) == |labelText|
    requires d + 2 + |labelText| < |line|
    requires line[d + 1..d + 1 + |labelText|] == labelText
    requires Subvariables(line, d + 2 + |labelText|) == Ok(names)
    ensures LabelAndList(line, lengthStart, p, mr) == Ok(mr.(labelText := labelText, subvariables := names))
  {
  }

  /** What `LabelAndList` finds in length digits, a blank, the label, a
      blank and a list, the length digits read on their own or after one
      blank. */
  lemma LabelLayout(line: string, lengthStart: nat, p: nat, digits: string, labelText: string, list: string)
    requires |digits| > 0 && AllDigits(digits) && |list| > 0
    requires Occurs(line, p, digits + (" " + (labelText + (" " + list))))
    requires lengthStart == p || (lengthStart + 1 == p && line[lengthStart] == ' ')
    ensures p + |digits| + 2 + |labelText| < |line|
    ensures IsDigit(line[p]) && line[p + |digits|] == ' ' && SpanEnd(line, p, IsDigit) == p + |digits|
    ensures StrToL(line, lengthStart, p + |digits|) == Dec(digits)
    ensures line[p + |digits| + 1..p + |digits| + 1 + |labelText|] == labelText
    ensures Occurs(line, p + |digits| + 2 + |labelText|, list)
  {
    var d := p + |digits|;
    OccursConcat(line, p, digits, " " + (labelText + (" " + list)));
    OccursConcat(line, d, " ", labelText + (" " + list));
    OccursConcat(line, d + 1, labelText, " " + list);
    OccursConcat(line, d + 1 + |labelText|, " ", list);
    OccursChar(line, d, ' ');
    OccursChar(line, d + 1 + |labelText|, ' ');
    OccursHead(line, p, digits);
    OccursSlice(line, d + 1, labelText);
    OccursSlice(line, d + 2 + |labelText|, list);
    SpanEndOver(line, p, digits, IsDigit);
    StrToLOfDigits(line, p, digits, d);
  }

  /** The label length, label and list as written are read back, the length
      digits read on their own or after one blank. */
  lemma LabelAndListOfFormatted(line: string, lengthStart: nat, p: nat, mr: MrSet, labelText: string, names: seq<string>)
    requires |names| > 0 && forall i | 0 <= i < |names| :: IsName(names[i])
    requires Occurs(line, p, LabelPart(labelText, names)) && p + |LabelPart(labelText, names)| == |line|
    requires lengthStart == p || (lengthStart + 1 == p && line[lengthStart] == ' ')
    ensures LabelAndList(line, lengthStart, p, mr) == Ok(mr.(labelText := labelText, subvariables := names))
  {
    var digits := DecString(|labelText|);
    var list := JoinNames(names);
    var start := p + |digits| + 2 + |labelText|;
    LabelLayout(line, lengthStart, p, digits, labelText, list);
    DecOfDecString(|labelText|);
    SubvariablesOfJoin(line, start, names);
    LabelAndListAt(line, lengthStart, p, p + |digits|, mr, labelText, names);
  }

  /** `CountedAndRest` with a non-zero count accepts once each of its
      checks passes. */
  lemma CountedAndRestAt(line: string, p: nat, q: nat, n: nat, mr: MrSet, countedValue: int, res: MrSet)
    requires p <= q < |line| && line[q] == ' ' && SpanEnd(line, p, IsDigit) == q
    requires StrToL(line, p, q) == n && n != 0 && q + 2 + n < |line|
    requires StrToL(line, q + 1, q + 1 + n) == countedValue
    requires LabelAndList(line, q + 2 + n, q + 2 + n, mr.(countedValue := countedValue)) == Ok(res)
    ensures CountedAndRest(line, p, mr) == Ok(res)
  {
  }

  /** What `CountedAndRest` finds in count digits, a blank, the counted
      value's digits, a blank and the rest. */
  lemma CountLayout(line: string, p: nat, count: string, value: string, tail: string)
    requires |count| > 0 && AllDigits(count) && |value| > 0 && AllDigits(value) && |tail| > 0
    requires Occurs(line, p, count + (" " + (value + (" " + tail))))
    ensures p + |count| + 2 + |value| < |line| && line[p + |count|] == ' '
    ensures SpanEnd(line, p, IsDigit) == p + |count|
    ensures StrToL(line, p, p + |count|) == Dec(count)
    ensures StrToL(line, p + |count| + 1, p + |count| + 1 + |value|) == Dec(value)
    ensures Occurs(line, p + |count| + 2 + |value|, tail)
  {
    var q := p + |count|;
    var n := |value|;
    OccursConcat(line, p, count, " " + (value + (" " + tail)));
    OccursConcat(line, q, " ", value + (" " + tail));
    OccursConcat(line, q + 1, value, " " + tail);
    OccursConcat(line, q + 1 + n, " ", tail);
    OccursChar(line, q, ' ');
    OccursChar(line, q + 1 + n, ' ');
    OccursSlice(line, q + 2 + n, tail);
    SpanEndOver(line, p, count, IsDigit);
    StrToLOfDigits(line, p, count, q);
    StrToLOfDigits(line, q + 1, value, q + 1 + n);
  }

  /** A count field with a counted value, followed by more text. */
  lemma CountFieldThen(countedValue: nat, tail: string)
    ensures var value := DecString(countedValue);
            CountField(countedValue) + tail == DecString(|value|) + (" " + (value + (" " + tail)))
  {
  }

  /** A count field without a counted value, and the rest as written, are
      read back. */
  lemma CountedAndRestWithoutValue(line: string, p: nat, mr: MrSet, labelText: string, names: seq<string>)
    requires |names| > 0 && forall i | 0 <= i < |names| :: IsName(names[i])
    requires Occurs(line, p, " " + LabelPart(labelText, names))
    requires p + 1 + |LabelPart(labelText, names)| == |line|
    ensures CountedAndRest(line, p, mr) == Ok(mr.(countedValue := -1, labelText := labelText, subvariables := names))
  {
    OccursConcat(line, p, " ", LabelPart(labelText, names));
    OccursChar(line, p, ' ');
    SpanEndAt(line, p, IsDigit, p);
    LabelAndListOfFormatted(line, p, p + 1, mr.(countedValue := -1), labelText, names);
  }

  /** A count field with a counted value, and the rest as written, are read
      back. */
  lemma CountedAndRestWithValue(line: string, p: nat, mr: MrSet, countedValue: nat, labelText: string, names: seq<string>)
    requires |names| > 0 && forall i | 0 <= i < |names| :: IsName(names[i])
    requires Occurs(line, p, CountField(countedValue) + LabelPart(labelText, names))
    requires p + |CountField(countedValue) + LabelPart(labelText, names)| == |line|
    ensures CountedAndRest(line, p, mr)
              == Ok(mr.(countedValue := countedValue, labelText := labelText, subvariables := names))
  {
    var tail := LabelPart(labelText, names);
    var value := DecString(countedValue);
    var count := DecString(|value|);
    var n := |value|;
    var q := p + |count|;
    CountFieldThen(countedValue, tail);
    CountLayout(line, p, count, value, tail);
    DecOfDecString(n);
    DecOfDecString(countedValue);
    LabelAndListOfFormatted(line, q + 2 + n, q + 2 + n, mr.(countedValue := countedValue), labelText, names);
    CountedAndRestAt(line, p, q, n, mr, countedValue,
                     mr.(countedValue := countedValue, labelText := labelText, subvariables := names));
  }

  /** The count field and the rest as written are read back. */
  lemma CountedAndRestOfFormatted(line: string, p: nat, mr: MrSet, countedValue: int, labelText: string, names: seq<string>)
    requires countedValue >= -1
    requires |names| > 0 && forall i | 0 <= i < |names| :: IsName(names[i])
    requires Occurs(line, p, CountField(countedValue) + LabelPart(labelText, names))
    requires p + |CountField(countedValue) + LabelPart(labelText, names)| == |line|
    ensures CountedAndRest(line, p, mr)
              == Ok(mr.(countedValue := countedValue, labelText := labelText, subvariables := names))
  {
    if countedValue < 0 {
      assert CountField(countedValue) == " ";
      CountedAndRestWithoutValue(line, p, mr, labelText, names);
    } else {
      CountedAndRestWithValue(line, p, mr, countedValue, labelText, names);
    }
  }

  /** What `extract_mr_data` finds in a name, `=`, a type and the rest. */
  lemma HeaderLayout(line: string, name: string, mrType: char, rest: string)
    requires IsName(name) && mrType in {'C', 'D'}
    requires line == name + ("=" + ([mrType] + rest))
    ensures SpanEnd(line, 0, IsNameChar) == |name| && |name| + 1 < |line|
    ensures line[|name|] == '=' && line[|name| + 1] == mrType && line[..|name|] == name
    ensures Occurs(line, |name| + 2, rest)
  {
    var e := |name|;
    OccursWhole(line);
    OccursConcat(line, 0, name, "=" + ([mrType] + rest));
    OccursConcat(line, e, "=", [mrType] + rest);
    OccursConcat(line, e + 1, [mrType], rest);
    OccursChar(line, e, '=');
    OccursChar(line, e + 1, mrType);
    OccursSlice(line, 0, name);
    SpanEndOver(line, 0, name, IsNameChar);
  }

  /** `extract_mr_data` accepts a well-formed header followed by a rest
      that `CountedAndRest` accepts. */
  lemma ExtractAt(line: string, e: nat, res: MrSet)
    requires IsCString(line)
    requires 0 < e && e + 1 < |line| && SpanEnd(line, 0, IsNameChar) == e
    requires line[e] == '=' && line[e + 1] in {'C', 'D'}
    requires CountedAndRest(line, e + 2, Header(line, e)) == Ok(res)
    ensures ExtractMrData(line) == Ok(res)
  {
  }

  /** `P` holds for every character the writer puts around the label:
      name characters (which include the digits and the type letters), the
      blank and `=`. */
  ghost predicate AllowsLayout(P: char -> bool) {
    forall c :: IsNameChar(c) || c == ' ' || c == '=' ==> P(c)
  }

  lemma NameTextChars(s: string, P: char -> bool)
    requires AllowsLayout(P)
    requires forall k | 0 <= k < |s| :: IsNameChar(s[k]) || s[k] == ' '
    ensures AllChars(s, P)
  {
  }

  lemma {:induction false} JoinNamesChars(names: seq<string>, P: char -> bool)
    requires AllowsLayout(P)
    requires |names| > 0 && forall i | 0 <= i < |names| :: IsName(names[i])
    ensures AllChars(JoinNames(names), P)
    decreases |names|
  {
    NameTextChars(names[0], P);
    if |names| > 1 {
      JoinNamesChars(names[1..], P);
      NameTextChars(" ", P);
      AllCharsConcat(" ", JoinNames(names[1..]), P);
      AllCharsConcat(names[0], " " + JoinNames(names[1..]), P);
    }
  }

  lemma DecStringChars(n: nat, P: char -> bool)
    requires AllowsLayout(P)
    ensures AllChars(DecString(n), P)
  {
    NameTextChars(DecString(n), P);
  }

  /** A property of characters that holds for the layout and for every
      character of the label holds for the whole written line. */
  lemma FormatMrLineChars(mr: MrSet, P: char -> bool)
    requires ValidMrSet(mr) && AllowsLayout(P) && AllChars(mr.labelText, P)
    ensures AllChars(FormatMrLine(mr), P)
  {
    var names := JoinNames(mr.subvariables);
    var blank := " ";
    NameTextChars(blank, P);
    JoinNamesChars(mr.subvariables, P);
    DecStringChars(|mr.labelText|, P);
    AllCharsConcat(blank, names, P);
    AllCharsConcat(mr.labelText, blank + names, P);
    AllCharsConcat(blank, mr.labelText + (blank + names), P);
    AllCharsConcat(DecString(|mr.labelText|), blank + (mr.labelText + (blank + names)), P);
    var tail := LabelPart(mr.labelText, mr.subvariables);
    var count := CountField(mr.countedValue);
    if mr.countedValue >= 0 {
      var digits := DecString(mr.countedValue);
      DecStringChars(mr.countedValue, P);
      DecStringChars(|digits|, P);
      AllCharsConcat(digits, blank, P);
      AllCharsConcat(blank, digits + blank, P);
      AllCharsConcat(DecString(|digits|), blank + (digits + blank), P);
    }
    AllCharsConcat(count, tail, P);
    NameTextChars([mr.mrType], P);
    AllCharsConcat([mr.mrType], count + tail, P);
    assert AllChars("=", P);
    AllCharsConcat("=", [mr.mrType] + (count + tail), P);
    NameTextChars(mr.name, P);
    AllCharsConcat(mr.name, "=" + ([mr.mrType] + (count + tail)), P);
  }

  /** The line written for a set is a C string. */
  lemma FormatMrLineIsCString(mr: MrSet)
    requires ValidMrSet(mr)
    ensures IsCString(FormatMrLine(mr))
  {
    var P := (c: char) => c != '\0' && IsByte(c);
    FormatMrLineChars(mr, P);
    assert AllChars(FormatMrLine(mr), P);
  }

  /** `extract_mr_data` reads every formatted line back as the set it was
      written from. */
  lemma ExtractFormatted(mr: MrSet)
    requires ValidMrSet(mr)
    ensures IsCString(FormatMrLine(mr))
    ensures ExtractMrData(FormatMrLine(mr)) == Ok(mr)
  {
    FormatMrLineIsCString(mr);
    var line := FormatMrLine(mr);
    var e := |mr.name|;
    var tail := LabelPart(mr.labelText, mr.subvariables);
    var rest := CountField(mr.countedValue) + tail;
    HeaderLayout(line, mr.name, mr.mrType, rest);
    var header := Header(line, e);
    var res := header.(countedValue := mr.countedValue, labelText := mr.labelText, subvariables := mr.subvariables);
    CountedAndRestOfFormatted(line, e + 2, header, mr.countedValue, mr.labelText, mr.subvariables);
    ExtractAt(line, e, res);
    assert res == mr;
  }
}

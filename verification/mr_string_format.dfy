/** The writing side of the whole multiple-response record, and the proof
    that `parse_mr_string` reads a written record back as the sets it was
    written from, in order. */
module MrStringFormat {
  import opened ReadstatErrors
  import opened CText
  import opened MrLine
  import opened MrLineFormat
  import opened MrString

  /** The lines of the sets, in order. */
  function FormatLines(sets: seq<MrSet>): (lines: seq<string>)
    requires forall i | 0 <= i < |sets| :: ValidMrSet(sets[i])
    ensures |lines| == |sets|
    ensures forall i | 0 <= i < |sets| :: lines[i] == FormatMrLine(sets[i])
  {
    if |sets| == 0 then []
    else
      assert forall i | 1 <= i < |sets| :: sets[1..][i - 1] == sets[i];
      [FormatMrLine(sets[0])] + FormatLines(sets[1..])
  }

  /** The record for the sets: every line behind a `$` and ended by a line
      break. */
  function FormatMrString(sets: seq<MrSet>): string
    requires forall i | 0 <= i < |sets| :: ValidMrSet(sets[i])
  {
    Record(seq(|sets|, _ => '$'), FormatLines(sets))
  }

  /** The line written for a set has no newline and no NUL when its label
      has none. */
  lemma FormatMrLineIsLineText(mr: MrSet)
    requires ValidMrSet(mr) && IsLineText(mr.labelText)
    ensures IsLineText(FormatMrLine(mr))
  {
    var P := (c: char) => c != '\n' && c != '\0' && IsByte(c);
    assert AllChars(mr.labelText, P);
    FormatMrLineChars(mr, P);
    assert AllChars(FormatMrLine(mr), P);
  }

  /** `parse_mr_string` reads the record written for a non-empty list of
      sets, none with a line break or NUL in its label, back as exactly
      those sets, with status OK. */
  lemma ParseFormattedMrString(sets: seq<MrSet>)
    requires |sets| > 0
    requires forall i | 0 <= i < |sets| :: ValidMrSet(sets[i]) && IsLineText(sets[i].labelText)
    ensures IsCString(FormatMrString(sets))
    ensures ParseMrString(FormatMrString(sets)) == (ReadstatOk, sets)
  {
    var leads := seq(|sets|, _ => '$');
    var lines := FormatLines(sets);
    forall i | 0 <= i < |sets|
      ensures IsLineText(lines[i]) && ParseMrLine(lines[i]) == (ReadstatOk, sets[i])
    {
      FormatMrLineIsLineText(sets[i]);
      ExtractFormatted(sets[i]);
    }
    ParseMrStringOfRecord(leads, lines);
    var r := ParseLines(lines, ParseMrLine);
    assert r.0 == ReadstatOk;
    assert r.1 == sets;
  }
}

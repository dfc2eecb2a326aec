/** The whole multiple-response record of an SPSS `.sav` file: lines of
    the form `$name=...`, each ended by a newline, and the outer state
    machine of `parse_mr_string` that hands each line to `parse_mr_line`.

    The machine accepts the text when it begins with `$` and ends with a
    newline. The character that follows a newline is passed over without
    being looked at: it is the `$` of the next line in a well-formed
    record. */
module MrString {
  import opened ReadstatErrors
  import opened CText
  import opened MrLine

  predicate IsNotNewline(c: char) {
    c != '\n'
  }

  /** A text that can be one line of the record. */
  predicate IsLineText(s: string) {
    IsCString(s) && forall k | 0 <= k < |s| :: s[k] != '\n'
  }

  /** What the outer machine calls on each line: `parse_mr_line`. The
      machine is written for any such function, so that what it does with
      the lines can be stated apart from what is in them. */
  type LineParser = string --> (ReadstatError, MrSet)

  /** The parser takes every C string, and fails with
      `READSTAT_ERROR_BAD_MR_STRING` or not at all. */
  ghost predicate IsLineParser(parse: LineParser) {
    forall line | IsCString(line) ::
      parse.requires(line) && (parse(line).0 == ReadstatOk || parse(line).0 == ErrorBadMrString)
  }

  /** The outer machine from state 2 on. The character at `start` has been
      passed over; the line runs from `start + 1` to the next newline. The
      result is the status and the sets read so far, which `*mr_sets` and
      `*n_mr_lines` hold when the function returns, on success or not. Two
      newlines in a row make the C code write before the start of a buffer
      of size zero; that line is rejected here. */
  function Lines(s: string, start: nat, parse: LineParser): (r: (ReadstatError, seq<MrSet>))
    requires start < |s| && IsCString(s) && IsLineParser(parse)
    ensures r.0 == ReadstatOk || r.0 == ErrorBadMrString
    ensures r.0 == ReadstatOk ==> s[|s| - 1] == '\n' && |r.1| > 0
    decreases |s| - start
  {
    var nl := SpanEnd(s, start + 1, IsNotNewline);
    if nl == |s| then (ErrorBadMrString, [])
    else
      CStringSlice(s, start + 1, nl);
      var parsed := parse(s[start + 1..nl]);
      if parsed.0 != ReadstatOk then (parsed.0, [])
      else if nl + 1 == |s| then (ReadstatOk, [parsed.1])
      else if s[nl + 1] == '\n' then (ErrorBadMrString, [parsed.1])
      else
        var rest := Lines(s, nl + 1, parse);
        (rest.0, [parsed.1] + rest.1)
  }

  /** `parse_mr_string`: the status, and the sets parsed before the machine
      stopped, in the order of their lines. */
  function ParseMrString(s: string): (r: (ReadstatError, seq<MrSet>))
    requires IsCString(s)
    ensures r.0 == ReadstatOk || r.0 == ErrorBadMrString
    ensures r.0 == ReadstatOk ==> |s| > 1 && s[0] == '$' && s[|s| - 1] == '\n' && |r.1| > 0
    ensures |s| == 0 || s[0] != '$' ==> r == (ErrorBadMrString, [])
  {
    if |s| == 0 || s[0] != '$' then (ErrorBadMrString, [])
    else Lines(s, 0, ParseMrLine)
  }

  // ---------------------------------------------------------------------
  // The record as a list of lines

  /** Each line parsed in turn, stopping at the first that is rejected. */
  function ParseLines(lines: seq<string>, parse: LineParser): (r: (ReadstatError, seq<MrSet>))
    requires |lines| > 0 && IsLineParser(parse)
    requires forall i | 0 <= i < |lines| :: IsCString(lines[i])
    ensures r.0 == ReadstatOk <==> forall i | 0 <= i < |lines| :: parse(lines[i]).0 == ReadstatOk
    ensures r.0 == ReadstatOk ==> |r.1| == |lines|
    ensures r.0 != ReadstatOk ==> |r.1| < |lines| && parse(lines[|r.1|]).0 != ReadstatOk
                                  && r.0 == parse(lines[|r.1|]).0
    ensures forall i | 0 <= i < |r.1| :: parse(lines[i]).0 == ReadstatOk && r.1[i] == parse(lines[i]).1
  {
    var first := parse(lines[0]);
    if first.0 != ReadstatOk then (first.0, [])
    else if |lines| == 1 then (ReadstatOk, [first.1])
    else
      var rest := ParseLines(lines[1..], parse);
      assert forall i | 1 <= i < |lines| :: lines[i] == lines[1..][i - 1];
      (rest.0, [first.1] + rest.1)
  }

  /** The text of a record: each line behind its lead character and ended
      by a newline. */
  function Record(leads: seq<char>, lines: seq<string>): string
    requires |leads| == |lines|
  {
    if |lines| == 0 then [] else [leads[0]] + (lines[0] + ("\n" + Record(leads[1..], lines[1..])))
  }

  /** Lead characters the machine passes over: bytes that are neither a
      newline nor the terminating NUL. */
  predicate ValidLeads(leads: seq<char>) {
    forall i | 0 <= i < |leads| :: leads[i] != '\n' && leads[i] != '\0' && IsByte(leads[i])
  }

  lemma {:induction false} RecordIsCString(leads: seq<char>, lines: seq<string>)
    requires |leads| == |lines| && ValidLeads(leads)
    requires forall i | 0 <= i < |lines| :: IsLineText(lines[i])
    ensures IsCString(Record(leads, lines))
    decreases |lines|
  {
    if |lines| > 0 {
      RecordIsCString(leads[1..], lines[1..]);
      var tail := Record(leads[1..], lines[1..]);
      var r := Record(leads, lines);
      assert r == [leads[0]] + lines[0] + "\n" + tail;
      forall k | 0 <= k < |r| ensures r[k] != '\0' && IsByte(r[k]) {
        if k == 0 {
        } else if k <= |lines[0]| {
          assert r[k] == lines[0][k - 1];
        } else if k > |lines[0]| + 1 {
          assert r[k] == tail[k - |lines[0]| - 2];
        }
      }
    }
  }

  /** Where a record appears, followed by `rest`, its first line runs up to
      the first newline, and the rest of the record follows that newline. */
  lemma RecordLayout(s: string, start: nat, leads: seq<char>, lines: seq<string>, rest: string)
    requires |leads| == |lines| && |lines| > 0 && IsLineText(lines[0])
    requires Occurs(s, start, Record(leads, lines) + rest) && start + |Record(leads, lines)| + |rest| == |s|
    ensures var nl := start + 1 + |lines[0]|;
            && nl < |s| && s[nl] == '\n' && s[start] == leads[0]
            && SpanEnd(s, start + 1, IsNotNewline) == nl && s[start + 1..nl] == lines[0]
            && Occurs(s, nl + 1, Record(leads[1..], lines[1..]) + rest)
            && nl + 1 + |Record(leads[1..], lines[1..])| + |rest| == |s|
  {
    var line := lines[0];
    var tail := Record(leads[1..], lines[1..]) + rest;
    assert Record(leads, lines) + rest == [leads[0]] + (line + ("\n" + tail));
    OccursConcat(s, start, [leads[0]], line + ("\n" + tail));
    OccursChar(s, start, leads[0]);
    OccursConcat(s, start + 1, line, "\n" + tail);
    OccursConcat(s, start + 1 + |line|, "\n", tail);
    OccursChar(s, start + 1 + |line|, '\n');
    SpanEndOver(s, start + 1, line, IsNotNewline);
    OccursSlice(s, start + 1, line);
  }

  /** One step of the machine over an accepted line that is followed by
      more text. */
  lemma LinesStep(s: string, start: nat, nl: nat, mr: MrSet, parse: LineParser)
    requires IsCString(s) && IsLineParser(parse)
    requires start < nl && nl + 1 < |s| && s[nl] == '\n' && s[nl + 1] != '\n'
    requires SpanEnd(s, start + 1, IsNotNewline) == nl
    requires parse(s[start + 1..nl]) == (ReadstatOk, mr)
    ensures Lines(s, start, parse).0 == Lines(s, nl + 1, parse).0
    ensures Lines(s, start, parse).1 == [mr] + Lines(s, nl + 1, parse).1
  {
  }

  /** Where a record appears in the text, the machine reads its lines. */
  lemma {:induction false} LinesOfRecord(s: string, start: nat, leads: seq<char>, lines: seq<string>, parse: LineParser)
    requires IsCString(s) && IsLineParser(parse)
    requires |leads| == |lines| && |lines| > 0 && ValidLeads(leads)
    requires forall i | 0 <= i < |lines| :: IsLineText(lines[i])
    requires Occurs(s, start, Record(leads, lines)) && start + |Record(leads, lines)| == |s|
    ensures forall i | 0 <= i < |lines| :: IsCString(lines[i])
    ensures start < |s| && Lines(s, start, parse) == ParseLines(lines, parse)
    decreases |lines|
  {
    assert Record(leads, lines) + [] == Record(leads, lines);
    RecordLayout(s, start, leads, lines, []);
    var nl := start + 1 + |lines[0]|;
    var parsed := parse(lines[0]);
    if parsed.0 == ReadstatOk && |lines| > 1 {
      var tail := Record(leads[1..], lines[1..]);
      assert tail + [] == tail;
      OccursHead(s, nl + 1, tail);
      LinesStep(s, start, nl, parsed.1, parse);
      LinesOfRecord(s, nl + 1, leads[1..], lines[1..], parse);
      assert lines[1..][0] == lines[1];
    }
  }

  /** A record that begins with `$` is parsed line by line: the status is
      OK exactly when every line is accepted, and the sets are those of the
      lines before the first rejected one. */
  lemma ParseMrStringOfRecord(leads: seq<char>, lines: seq<string>)
    requires |leads| == |lines| && |lines| > 0 && leads[0] == '$' && ValidLeads(leads)
    requires forall i | 0 <= i < |lines| :: IsLineText(lines[i])
    ensures IsCString(Record(leads, lines))
    ensures forall i | 0 <= i < |lines| :: IsCString(lines[i])
    ensures ParseMrString(Record(leads, lines)) == ParseLines(lines, ParseMrLine)
  {
    RecordIsCString(leads, lines);
    OccursWhole(Record(leads, lines));
    LinesOfRecord(Record(leads, lines), 0, leads, lines, ParseMrLine);
  }

  /** Where a record appears and is followed by one more lead character and
      a line without its newline, the machine reads the record's lines and
      then rejects the text. The sets of the lines before the first
      rejected one are kept, as `n_mr_lines` counts them. */
  lemma {:induction false} LinesOfTruncatedRecord(s: string, start: nat, leads: seq<char>, lines: seq<string>,
                                                  lead: char, last: string, parse: LineParser)
    requires IsCString(s) && IsLineParser(parse)
    requires |leads| == |lines| && ValidLeads(leads) && ValidLeads([lead])
    requires (forall i | 0 <= i < |lines| :: IsLineText(lines[i])) && IsLineText(last)
    requires Occurs(s, start, Record(leads, lines) + ([lead] + last))
    requires start + |Record(leads, lines)| + 1 + |last| == |s|
    ensures start < |s| && Lines(s, start, parse).0 == ErrorBadMrString
    ensures |lines| == 0 ==> Lines(s, start, parse).1 == []
    ensures forall i | 0 <= i < |lines| :: IsCString(lines[i])
    ensures |lines| > 0 ==> Lines(s, start, parse).1 == ParseLines(lines, parse).1
    decreases |lines|
  {
    if |lines| == 0 {
      assert Record(leads, lines) + ([lead] + last) == [lead] + last;
      OccursConcat(s, start, [lead], last);
      OccursChar(s, start, lead);
      SpanEndOver(s, start + 1, last, IsNotNewline);
    } else {
      var rest := [lead] + last;
      RecordLayout(s, start, leads, lines, rest);
      var nl := start + 1 + |lines[0]|;
      var parsed := parse(lines[0]);
      if parsed.0 == ReadstatOk {
        var tail := Record(leads[1..], lines[1..]);
        OccursHead(s, nl + 1, tail + rest);
        assert (tail + rest)[0] != '\n' by {
          if |lines| > 1 {
            assert tail[0] == leads[1];
          } else {
            assert tail == [];
          }
        }
        LinesStep(s, start, nl, parsed.1, parse);
        LinesOfTruncatedRecord(s, nl + 1, leads[1..], lines[1..], lead, last, parse);
        if |lines| > 1 {
          assert lines[1..][0] == lines[1];
        }
      }
    }
  }

  /** A record that begins with `$` and whose last line lacks its newline
      is rejected; the sets of its complete lines before the first rejected
      one are kept. */
  lemma ParseMrStringOfTruncatedRecord(leads: seq<char>, lines: seq<string>, lead: char, last: string)
    requires |leads| == |lines| && |lines| > 0 && leads[0] == '$' && ValidLeads(leads) && ValidLeads([lead])
    requires (forall i | 0 <= i < |lines| :: IsLineText(lines[i])) && IsLineText(last)
    ensures IsCString(Record(leads, lines) + ([lead] + last))
    ensures forall i | 0 <= i < |lines| :: IsCString(lines[i])
    ensures ParseMrString(Record(leads, lines) + ([lead] + last)).0 == ErrorBadMrString
    ensures ParseMrString(Record(leads, lines) + ([lead] + last)).1 == ParseLines(lines, ParseMrLine).1
  {
    var text := Record(leads, lines) + ([lead] + last);
    RecordIsCString(leads, lines);
    CStringConcat([lead], last);
    CStringConcat(Record(leads, lines), [lead] + last);
    OccursWhole(text);
    assert text[0] == '$';
    LinesOfTruncatedRecord(text, 0, leads, lines, lead, last, ParseMrLine);
  }
}

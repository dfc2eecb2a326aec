/** Lines and records that the parser rejects, worked through. */
module MrExamples {
  import opened ReadstatErrors
  import opened CText
  import opened MrLine
  import opened MrString

  /** The type `E` rejects the line; every accepted line has type `C` or
      `D` by the contract of `ExtractMrData`. */
  lemma UnknownTypeLine()
    ensures IsCString("A=E 1 x y") && ExtractMrData("A=E 1 x y").Err?
  {
  }

  /** A one-line record without its line break is rejected, and no set is
      kept. With complete lines before the last one, their sets are kept:
      `MrString.ParseMrStringOfTruncatedRecord`. */
  lemma MissingFinalNewline()
    ensures ParseMrString("$A=C 1 x y") == (ErrorBadMrString, [])
  {
  }
}

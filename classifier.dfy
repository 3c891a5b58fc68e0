/** Decides whether a subtitle line is dialogue to translate or structure to keep. */
module LineClassifier {
  import opened Text

  datatype LineKind = Structural | Translatable

  /**
   * The test of the pipeline loop: a timing line (holds "-->"), a blank line,
   * or a line that starts with a digit (a cue number) is structural. The blank
   * test comes before the first-character test, so an empty line never reaches
   * `line[0]`.
   */
  function Classify(line: string): LineKind {
    if Contains(line, "-->") || Strip(line) == "" || IsDigit(line[0]) then Structural else Translatable
  }

  /**
   * A line is structural exactly when "-->" occurs in it, it is empty or all
   * whitespace, or its first character is a digit.
   */
  lemma ClassifyMeaning(line: string)
    ensures Classify(line) == Structural <==>
              (exists i :: OccursAt(line, "-->", i)) || IsBlank(line) || (|line| > 0 && IsDigit(line[0]))
  {
    ContainsIffOccurs(line, "-->");
    StripEmptyIffBlank(line);
  }

  /** The four lines of a short subtitle cue, classified (and the one-digit line "5"). */
  lemma CueLines(index: string, timing: string, text: string, blank: string, digit: string)
    requires index == "1" && timing == "00:00:01,000 --> 00:00:02,000" && text == "Hello world"
    requires blank == "" && digit == "5"
    ensures Classify(index) == Structural && Classify(timing) == Structural
    ensures Classify(text) == Translatable && Classify(blank) == Structural
    ensures Classify(digit) == Structural
  {
    ClassifyMeaning(timing);
    assert OccursAt(timing, "-->", 13);
    ClassifyMeaning(text);
    assert text[0] == 'H' && !IsBlank(text);
    forall i | 0 <= i < |text| - 2 ensures !OccursAt(text, "-->", i) {
      assert i == 0 || i == 1 || i == 2 || i == 3 || i == 4 || i == 5 || i == 6 || i == 7 || i == 8;
      assert text[i..i + 3][0] == text[i];
    }
  }
}

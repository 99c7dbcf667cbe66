/** What both pages share about one conversion: how a long text is
    shortened for display, and how a press of "Generate Speech" ends. */
module Conversions {

  /** Texts longer than this many characters are shortened for display. */
  const PreviewLength := 100

  /** Marker appended to a shortened text. */
  const Ellipsis := "..."

  /** `text[:100] + "..." if len(text) > 100 else text`: a text of at most
      100 characters is kept as it is; a longer one becomes its first 100
      characters followed by "...", 103 characters in all. */
  function Truncate(text: string): (r: string)
    ensures |text| <= PreviewLength ==> r == text
    ensures |text| > PreviewLength ==>
      |r| == PreviewLength + |Ellipsis| && r[..PreviewLength] == text[..PreviewLength]
      && r[PreviewLength..] == Ellipsis
  {
    if |text| > PreviewLength then text[..PreviewLength] + Ellipsis else text
  }

  /** A shortened text is never longer than 103 characters, and what it shows
      of the text is a prefix of it. */
  lemma TruncateBounds(text: string)
    ensures |Truncate(text)| <= PreviewLength + |Ellipsis|
    ensures var shown := if |text| <= PreviewLength then |text| else PreviewLength;
      Truncate(text)[..shown] == text[..shown]
  {
  }

  /** How one press of "Generate Speech" ends. */
  datatype Outcome =
    | EmptyInput       // the text is blank: a validation message is shown
    | SynthesisFailed  // the speech engine reported an error
    | Generated        // audio was produced and the conversion was recorded
}

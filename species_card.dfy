/** The description line of a species card. */
module SpeciesCard {
  import opened Wrappers
  import opened JsText

  /** How many characters of the description a card shows before the ellipsis. */
  const PreviewLength: nat := 150

  /** `description ? description.slice(0, 150).trim() + "..." : ""`: a missing or empty
      description shows nothing; any other, even whitespace only, shows the trimmed first
      150 characters followed by an ellipsis. */
  function CardDescription(description: Option<string>): (r: string)
    ensures r == "" <==> description.None? || description.value == ""
    ensures |r| <= PreviewLength + 3
    ensures description.Some? && description.value != "" ==>
              && |r| >= 3 && r[|r| - 3..] == "..."
              && r[..|r| - 3] == Trim(SliceTo(description.value, PreviewLength))
  {
    match description
    case None => ""
    case Some(s) => if s == "" then "" else Trim(SliceTo(s, PreviewLength)) + "..."
  }

  /** A description that fits the preview is shown whole, trimmed, with the ellipsis. */
  lemma ShortDescriptionShownWhole(s: string)
    requires s != "" && |s| <= PreviewLength
    ensures CardDescription(Some(s)) == Trim(s) + "..."
  {
  }

  /** A whitespace-only description still shows the bare ellipsis. */
  lemma BlankDescriptionShowsEllipsis(s: string)
    requires s != "" && AllWhitespace(s)
    ensures CardDescription(Some(s)) == "..."
  {
    var p := SliceTo(s, PreviewLength);
    assert AllWhitespace(p) by {
      forall i | 0 <= i < |p| ensures IsWhitespace(p[i]) {
        assert p[i] == s[i];
      }
    }
  }
}

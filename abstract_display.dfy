/** How a paper card shows its abstract: present or not, and cut to a preview when long. */
module AbstractDisplay {

  const TruncatedLength := 200
  const Ellipsis := "..."

  /** `hasAbstract`, `needsTruncation` and `truncatedAbstract` of one paper card. */
  datatype AbstractView = AbstractView(hasAbstract: bool, needsTruncation: bool, preview: string)

  /**
   * `hasAbstract = abstract && abstract.length > 0`;
   * `needsTruncation = hasAbstract && abstract.length > 200`;
   * the preview is the first 200 characters and "..." when truncated, else the abstract.
   */
  function ShowAbstract(abstractText: string): (v: AbstractView)
    ensures v.hasAbstract <==> abstractText != []
    ensures v.needsTruncation <==> |abstractText| > TruncatedLength
    ensures v.needsTruncation ==> v.hasAbstract
    ensures v.needsTruncation ==>
      |v.preview| == TruncatedLength + 3 &&
      v.preview[..TruncatedLength] == abstractText[..TruncatedLength] &&
      v.preview[TruncatedLength..] == Ellipsis
    ensures !v.needsTruncation ==> v.preview == abstractText
  {
    var hasAbstract := |abstractText| > 0;
    var needsTruncation := hasAbstract && |abstractText| > TruncatedLength;
    var preview := if needsTruncation then abstractText[..TruncatedLength] + Ellipsis else abstractText;
    AbstractView(hasAbstract, needsTruncation, preview)
  }

  /**
   * The preview never exceeds 203 characters, starts with the abstract (up to 200
   * of its characters), and is shorter than the abstract whenever the abstract
   * has more than 203.
   */
  lemma PreviewBounds(abstractText: string)
    ensures var v := ShowAbstract(abstractText);
      |v.preview| <= TruncatedLength + 3 &&
      (var n := if |abstractText| < TruncatedLength then |abstractText| else TruncatedLength;
       v.preview[..n] == abstractText[..n]) &&
      (|abstractText| > TruncatedLength + 3 ==> |v.preview| < |abstractText|)
  {
  }

  /**
   * Showing a preview again changes nothing: a truncated preview is 203 long,
   * ends in "...", and cutting it at 200 and appending "..." rebuilds it.
   */
  lemma {:induction false} PreviewIsStable(abstractText: string)
    ensures var p := ShowAbstract(abstractText).preview;
      ShowAbstract(p).preview == p
  {
    var v := ShowAbstract(abstractText);
    if v.needsTruncation {
      var p := v.preview;
      assert p == p[..TruncatedLength] + p[TruncatedLength..];
    }
  }
}

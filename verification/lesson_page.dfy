/** The one piece of logic in the lesson list page (app/aulas/page.tsx): the short
    description shown on each lesson card. */
module LessonPage {
  import opened Common

  const NoDescription: string := "Descrição não disponível."
  const CardLimit: nat := 120
  const Ellipsis: string := "..."

  /** `getShortDescription`: a missing or empty description becomes the placeholder; one
      longer than 120 characters is cut to its first 120 followed by '...'; any other is
      shown as it is. */
  function ShortDescription(description: Option<string>): (r: string)
    ensures !Truthy(description) ==> r == NoDescription
    ensures Truthy(description) && |description.value| <= CardLimit ==> r == description.value
    ensures Truthy(description) && |description.value| > CardLimit ==>
      && |r| == CardLimit + |Ellipsis|
      && r[..CardLimit] == description.value[..CardLimit]
      && r[CardLimit..] == Ellipsis
  {
    if !Truthy(description) then NoDescription
    else if |description.value| > CardLimit then description.value[..CardLimit] + Ellipsis
    else description.value
  }

  /** The card text is never longer than 123 characters, and for a real description it
      starts with the description's first `min(len, 120)` characters. */
  lemma ShortDescriptionBounds(description: Option<string>)
    ensures |ShortDescription(description)| <= CardLimit + |Ellipsis|
    ensures Truthy(description) ==>
      var n := if |description.value| < CardLimit then |description.value| else CardLimit;
      n <= |ShortDescription(description)| && ShortDescription(description)[..n] == description.value[..n]
  {
    assert |NoDescription| <= CardLimit + |Ellipsis|;
  }

  /** Shortening is idempotent: a card text, shortened again, stays the same (a cut text
      is cut again at the same place and gets the same '...'). */
  lemma ShortDescriptionIdempotent(description: Option<string>)
    ensures ShortDescription(Some(ShortDescription(description))) == ShortDescription(description)
  {
    var r := ShortDescription(description);
    if Truthy(description) && |description.value| > CardLimit {
      assert r[..CardLimit] + Ellipsis == r;
    } else if !Truthy(description) {
      assert |NoDescription| <= CardLimit && NoDescription != "";
    }
  }
}

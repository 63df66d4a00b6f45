/** The article card and detail page's read-time estimate and the card's
    link. Word counts are the number of pieces `split(" ")` produces, so an
    empty text still counts as one word. */
module ArticleCards {
  import opened Common

  const WordsPerMinute := 200
  const DetailPrefix: String := "/articles/detail/"

  /** `text.split(" ").length`. */
  function Words(text: String): (n: nat)
    ensures n >= 1
  {
    |Split(text, ' ')|
  }

  /** A text has one more word than it has spaces. */
  lemma {:induction false} WordsAreSpacesPlusOne(text: String)
    ensures Words(text) == Count(text, ' ') + 1
  {
    SplitLength(text, ' ');
  }

  /** The card's `calculateReadTime`: minutes for the description and code
      together at 200 words a minute, rounded up. */
  function CardReadTime(description: String, code: String): (minutes: nat)
    ensures minutes >= 1
    ensures minutes * WordsPerMinute >= Words(description) + Words(code)
    ensures (minutes - 1) * WordsPerMinute < Words(description) + Words(code)
  {
    CeilDiv(Words(description) + Words(code), WordsPerMinute)
  }

  /** Adding text to either field never lowers the estimate. */
  lemma {:induction false} CardReadTimeMonotone(description: String, code: String, more: String, more': String)
    ensures CardReadTime(description, code) <= CardReadTime(description + more, code + more')
  {
    WordsAreSpacesPlusOne(description);
    WordsAreSpacesPlusOne(code);
    WordsAreSpacesPlusOne(description + more);
    WordsAreSpacesPlusOne(code + more');
    CountAppend(description, more, ' ');
    CountAppend(code, more', ' ');
    CeilDivMonotone(Words(description) + Words(code), Words(description + more) + Words(code + more'), WordsPerMinute);
  }

  /** The detail page's `calculateReadTime`: zero for an empty description;
      otherwise as on the card, where missing code adds no words. */
  function DetailReadTime(description: String, code: Option<String>): (minutes: nat)
    ensures minutes == 0 <==> description == []
  {
    if description == [] then 0
    else
      var codeWords := if code.Some? then Words(code.value) else 0;
      CeilDiv(Words(description) + codeWords, WordsPerMinute)
  }

  /** With a description and code present, the detail page and the card
      agree. */
  lemma {:induction false} DetailAgreesWithCard(description: String, code: String)
    requires description != []
    ensures DetailReadTime(description, Some(code)) == CardReadTime(description, code)
  {
  }

  /** The card's link target. */
  function DetailLink(slug: String): (path: String)
    ensures StartsWith(path, DetailPrefix)
    ensures path[|DetailPrefix|..] == slug
  {
    DetailPrefix + slug
  }

  /** Different slugs give different links. */
  lemma {:induction false} DetailLinkInjective(a: String, b: String)
    requires DetailLink(a) == DetailLink(b)
    ensures a == b
  {
    assert a == DetailLink(a)[|DetailPrefix|..];
  }
}

/** Properties of the short form of an article's body. */
module ShortContentProperties {
  import opened Models

  /** The boundary case: a body of exactly PREVIEW_LENGTH code points is shown
      whole, with no ellipsis. */
  lemma BoundaryBodyKept(a: Article)
    requires |a.content| == PREVIEW_LENGTH
    ensures ShortContent(a) == a.content
  {
  }

  /** An empty body has an empty short form. */
  lemma EmptyBodyEmptyForm(a: Article)
    requires a.content == []
    ensures ShortContent(a) == []
  {
  }

  /** The short form of a body that is too long is its first PREVIEW_LENGTH
      code points followed by the ellipsis. */
  lemma LongBodyForm(a: Article)
    requires IsTruncated(a.content)
    ensures ShortContent(a) == a.content[..PREVIEW_LENGTH] + ELLIPSIS
  {
  }

  /** Conversely, a body of at least PREVIEW_LENGTH code points whose short
      form is its first PREVIEW_LENGTH code points and the ellipsis was cut:
      the ellipsis is appended only to a body that was cut, and a body of
      exactly PREVIEW_LENGTH code points never gets one. */
  lemma LongBodyFormOnlyIfCut(a: Article)
    requires |a.content| >= PREVIEW_LENGTH
    requires ShortContent(a) == a.content[..PREVIEW_LENGTH] + ELLIPSIS
    ensures IsTruncated(a.content)
  {
  }

  /** The short form depends on the body only, not on the title or the
      published flag. */
  lemma DependsOnlyOnContent(a: Article, b: Article)
    requires a.content == b.content
    ensures ShortContent(a) == ShortContent(b)
  {
  }

  /** Shortening a short form again changes nothing. */
  lemma Idempotent(a: Article)
    ensures ShortContent(a.(content := ShortContent(a))) == ShortContent(a)
  {
  }

  /** The short form equals the body itself exactly when the body is short
      enough, or when it is PREVIEW_LENGTH + 3 code points long and already
      ends with the ellipsis. A short form equal to the body therefore does
      not show that nothing was cut. */
  lemma UnchangedIff(a: Article)
    ensures ShortContent(a) == a.content <==>
      !IsTruncated(a.content) ||
      (|a.content| == PREVIEW_LENGTH + |ELLIPSIS| && a.content[PREVIEW_LENGTH..] == ELLIPSIS)
  {
  }

  /** Two articles have the same short form exactly when their bodies are
      equal, or both are cut and agree on the kept prefix. A cut body's short
      form is never the short form of a body that was kept whole, because the
      first is longer than PREVIEW_LENGTH and the second is not. */
  lemma SameFormIff(a: Article, b: Article)
    ensures ShortContent(a) == ShortContent(b) <==>
      a.content == b.content ||
      (IsTruncated(a.content) && IsTruncated(b.content) &&
       a.content[..PREVIEW_LENGTH] == b.content[..PREVIEW_LENGTH])
  {
  }

  /** The strings that can appear as a short form: those of at most
      PREVIEW_LENGTH code points, and those of PREVIEW_LENGTH + 3 code points
      that end with the ellipsis. */
  predicate IsShortForm(r: string)
  {
    |r| <= PREVIEW_LENGTH || (|r| == PREVIEW_LENGTH + |ELLIPSIS| && r[PREVIEW_LENGTH..] == ELLIPSIS)
  }

  /** A string is the short form of some body of an article with the given
      title and flag exactly when it has the shape IsShortForm describes. */
  lemma ShortFormImage(title: string, isPublished: bool, r: string)
    ensures (exists c :: ShortContent(Article(title, c, isPublished)) == r) <==> IsShortForm(r)
  {
    if IsShortForm(r) {
      UnchangedIff(Article(title, r, isPublished));
    }
  }

  /** Appending text to a body that is already cut leaves its short form as
      it was. */
  lemma AppendToLongBody(a: Article, more: string)
    requires IsTruncated(a.content)
    ensures ShortContent(a.(content := a.content + more)) == ShortContent(a)
  {
  }
}

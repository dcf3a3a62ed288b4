/** A model of the article record of the knowledge base and of its one piece
    of logic, the short form of an article's body shown in listings.

    Strings are `seq<char>` and Dafny's `char` is a Unicode scalar value, so
    one element is one code point, as Python's `len` and slicing count them. */
module Models {

  /** Number of code points of the body that a short form keeps. */
  const PREVIEW_LENGTH: nat := 100

  /** What a shortened body ends with. */
  const ELLIPSIS: string := "..."

  /** An article as far as its own behaviour goes. The storage layer limits
      `title` to 200 characters; that limit is enforced by the framework and is
      not part of this record. Timestamps are maintained by the framework on
      save and are left out. */
  datatype Article = Article(title: string, content: string, isPublished: bool)

  /** Creating an article without saying whether it is published publishes
      it: the field's default is true. */
  function NewArticle(title: string, content: string): (a: Article)
    ensures a.isPublished
    ensures a.title == title && a.content == content
  {
    Article(title, content, true)
  }

  /** The string form of an article is its title, whatever its body and flag. */
  function ToString(a: Article): (s: string)
    ensures s == a.title
  {
    a.title
  }

  /** True when the body is longer than a short form may be. The test is a
      strict comparison: a body of exactly PREVIEW_LENGTH code points is kept. */
  predicate IsTruncated(content: string)
  {
    |content| > PREVIEW_LENGTH
  }

  /** The short form of an article's body: the body itself when it is short
      enough, otherwise its first PREVIEW_LENGTH code points and an ellipsis. */
  function ShortContent(a: Article): (r: string)
    ensures |r| <= PREVIEW_LENGTH + |ELLIPSIS|
    ensures IsTruncated(a.content) <==> |r| > PREVIEW_LENGTH
    ensures IsTruncated(a.content) ==> |r| == PREVIEW_LENGTH + |ELLIPSIS| && r[PREVIEW_LENGTH..] == ELLIPSIS
    ensures !IsTruncated(a.content) ==> r == a.content
    ensures |r| >= Min(|a.content|, PREVIEW_LENGTH)
    ensures r[..Min(|a.content|, PREVIEW_LENGTH)] == a.content[..Min(|a.content|, PREVIEW_LENGTH)]
  {
    if IsTruncated(a.content) then a.content[..PREVIEW_LENGTH] + ELLIPSIS else a.content
  }

  function Min(x: nat, y: nat): nat
  {
    if x <= y then x else y
  }
}

# Knowledge-base article model

A Dafny model of the `Article` record of the knowledge base and of its one
piece of logic: the short form of an article's body that the admin listing
shows. A body of at most 100 code points is shown whole. A longer body is cut
to its first 100 code points, and `"..."` is appended. The record also gives
its title as its string form, and a new article is published by default.

Strings are `seq<char>`. Dafny's `char` is a Unicode scalar value, so one
element is one code point, as Python's `len` and slicing count them. Bodies
may hold non-ASCII text (the field labels are Russian); counting UTF-8 bytes,
or UTF-16 units for characters outside the Basic Multilingual Plane, would give
different cuts.

Files:
- `models.dfy` (module `Models`): the record, its constructor with the
  default flag, its string form and the short form with a contract that
  determines it.
- `short_content_properties.dfy` (module `ShortContentProperties`): lemmas
  stating properties of the short form of an article's body.

## Model

| member | source | states |
|---|---|---|
| `Models.NewArticle` | the_knowledge_base/models.py:26-29 | an article created without an explicit flag is published, and keeps the given title and body |
| `Models.ToString` | the_knowledge_base/models.py:36-37 | the string form of an article is its title, unchanged |
| `Models.ShortContent` | the_knowledge_base/models.py:42-46 | the result has at most 103 code points; it is longer than 100 exactly when the body is; a body of at most 100 is returned unchanged; a longer body gives exactly 103 code points ending in `"..."`; the first min(len, 100) code points equal the body's |
| `ShortContentProperties.BoundaryBodyKept` | the_knowledge_base/models.py:44 | a body of exactly 100 code points is shown whole, without an ellipsis, because the test is strict |
| `ShortContentProperties.EmptyBodyEmptyForm` | the_knowledge_base/models.py:44-46 | an empty body gives an empty short form |
| `ShortContentProperties.LongBodyForm` | the_knowledge_base/models.py:44-45 | a body over 100 code points gives its first 100 code points followed by `"..."` |
| `ShortContentProperties.LongBodyFormOnlyIfCut` | the_knowledge_base/models.py:44-46 | a body of at least 100 code points whose short form is its first 100 code points and `"..."` is longer than 100, so the function appends `"..."` only to a body it cut; a body of exactly 100 code points never gets one |
| `ShortContentProperties.DependsOnlyOnContent` | the_knowledge_base/models.py:42-46 | the short form depends on the body only, not on the title or the flag |
| `ShortContentProperties.Idempotent` | the_knowledge_base/models.py:44-46 | shortening a short form again gives the same short form |
| `ShortContentProperties.UnchangedIff` | the_knowledge_base/models.py:44-46 | the short form equals the body exactly when the body has at most 100 code points, or has 103 and already ends with `"..."` |
| `ShortContentProperties.SameFormIff` | the_knowledge_base/models.py:44-46 | two articles share a short form exactly when their bodies are equal, or both bodies are cut and agree on the first 100 code points |
| `ShortContentProperties.ShortFormImage` | the_knowledge_base/models.py:44-46 | a string is the short form of some body exactly when it has at most 100 code points, or has 103 and ends with `"..."` |
| `ShortContentProperties.AppendToLongBody` | the_knowledge_base/models.py:44-45 | appending text to a body that is already cut does not change its short form |

## Left out

- Timestamps (`created_at`, `updated_at`): the framework sets them on save; there is no code for them in the repository.
- The default ordering by newest first: a query hint run by the framework.
- The `max_length=200` limit on titles: enforced by the framework's form and database layer; noted on the datatype only.
- The commented-out `get_absolute_url`: dead code inside a string literal that relies on URL routing.
- The admin configuration in `the_knowledge_base/admin.py`: list columns, filters, search and fieldsets are declarative. The two date columns only call the library's date formatting. The short-content column only calls `ShortContent`.
- Storage, the admin web interface and authentication belong to the framework.
- Python strings can hold lone surrogate code points; Dafny's `char` cannot, so such bodies are outside the model.
- `models.py` and `admin.py` define no duplicate detector and no category record, so neither is modelled.

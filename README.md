# t2e: plain-text novel to EPUB, chapter segmentation and package layout

This project models the one script of the repository, `main.py`. The script
reads a manuscript and cuts it into chapters wherever a blank line
(`"\n\n"`) occurs. In each chapter block, the first line is the title. The
remaining lines are joined with `</p><p>` into the body. Each chapter becomes
an XHTML document `<h2>title</h2><p>body</p>` named `chap_<n>.xhtml`, where
`n` is its 1-based position. Every chapter links the one shared stylesheet.
The table of contents lists the chapters in order, and the spine lists the
navigation document followed by every chapter in order.

Two modules:

- `PyStr` (`pystr.dfy`) holds the Python built-ins the script relies on.
  These are `str.find`, `str.split` and `str.join` with a non-empty
  separator, and `str(n)` for a natural number. `Split` is defined the way
  CPython computes it: find the leftmost occurrence, cut, and continue after
  it. It is proved against an independent description of a split
  (`SplitPieces`: every piece but the last ends at the leftmost occurrence,
  and the last piece has none). The proof runs in both directions, so
  `Split(s, sep)` is the only such split of `s`.
- `Txt2Epub` (`txt2epub.dfy`) holds the script itself. The per-chapter
  derivations are functions: `Blocks`, `Lines`, `Title`, `Body`, `FileName`,
  `Render` and `RenderChapter`. `Segment` renders every block, `Assemble`
  lays out the package around a chapter list, and `BookOf` is the package
  made from a manuscript. The chapter loop is the method `BuildBook`. It
  appends to the item list, the chapter list and the spine, and is proved
  to produce `BookOf(text)`.

Every derivation is a function, and `BuildBook` is proved equal to
`BookOf`. So identical input always gives identical chapter names and
documents. Nothing in the model depends on time or randomness.

Behaviour worth knowing:

- Chapters are cut at blank lines only. Whitespace is not normalised and
  headings are not detected by pattern.
- An empty manuscript gives one chapter, not zero (`EmptyManuscript`).
- The `'Chapter {}'` placeholder title is unreachable, because `str.split`
  never returns an empty list (`TitleIsFirstLine`).
- Chapter files are named `chap_<n>.xhtml`, with `n` counted from 1
  (`FileNameNumber`).
- A chapter's body is a single `<p>…</p>` whose lines are separated by
  `</p><p>`. That amounts to one paragraph element per body line
  (`ContentParagraphs`). Titles and lines are not escaped.
- A body is empty exactly when the block has no newline before its last
  character. So a block such as `"Title\n"`, whose only newline is at the
  end, also gets an empty body (`BodyEmptyIff`).
- Three newlines in a row give a chapter whose title is empty:
  `"a\n\n\nb"` is cut into the blocks `"a"` and `"\nb"`, and the second
  block's first line is empty (`ThreeNewlines`).
- A manuscript ending in a blank line gets a last chapter with an empty
  title and an empty body: `"x\n\n"` is cut into `"x"` and `""`
  (`TrailingBlankLine`).

## Model

| member | source | states |
|---|---|---|
| PyStr.Find | main.py:11 | the result is -1 or an index at or after the start where the separator occurs, and the separator occurs nowhere between the start and the result (nowhere at all when -1) |
| PyStr.Split | main.py:11 | `str.split` always returns at least one piece, and joining the pieces with the separator gives back the input string |
| PyStr.SplitSound | main.py:11 | the pieces form a left-to-right, non-overlapping split: every piece but the last ends at the leftmost occurrence of the separator, and the last piece contains none |
| PyStr.SplitJoin | main.py:11 | splitting the join of any such well-formed pieces returns exactly those pieces, so the split of a string is unique |
| PyStr.SplitPiecesFree | main.py:11 | no piece of a split contains the separator |
| PyStr.SingleCharSep | main.py:47 | for a one-character separator, both "no occurrence" and "cut at the leftmost occurrence" mean that the character is absent |
| PyStr.SplitOnCharFree | main.py:47 | splitting on a one-character separator leaves that character in no piece |
| PyStr.Join | main.py:49 | `str.join` starts with the first piece, and with two or more pieces it is at least as long as the first two pieces and a separator between them |
| PyStr.JoinEmpty | main.py:49 | a join with a non-empty separator is empty exactly for no pieces or a single empty piece |
| PyStr.Decimal | main.py:50 | `str(n)` is a non-empty string of decimal digits with no leading zero unless n is 0 |
| PyStr.DecimalRoundTrip | main.py:50 | reading the decimal digits of n back gives n |
| Txt2Epub.Blocks | main.py:11 | there is at least one chapter block, the blocks joined with the blank-line separator reproduce the manuscript exactly, and no block contains that separator |
| Txt2Epub.BlocksUnique | main.py:11 | any well-formed left-to-right split of the manuscript on the blank-line separator is its block list |
| Txt2Epub.Segment | main.py:46-55 | one chapter is made per block |
| Txt2Epub.EmptyManuscript | main.py:46-52 | an empty manuscript yields exactly one chapter, with an empty title, an empty body, the name chap_1.xhtml and the document `<h2></h2><p></p>` |
| Txt2Epub.ThreeNewlines | main.py:11-48 | `"a\n\n\nb"` is cut into the blocks `"a"` and `"\nb"`, and the second chapter's title is empty |
| Txt2Epub.TrailingBlankLine | main.py:11-49 | `"x\n\n"` is cut into the blocks `"x"` and `""`, and the last chapter has an empty title and an empty body |
| Txt2Epub.Lines | main.py:47 | a block has at least one line, the lines joined with newlines reproduce the block, and no line contains a newline |
| Txt2Epub.Title | main.py:48 | the title is the first line whenever there is one; a title taken from a newline-free line, or the placeholder, holds no newline |
| Txt2Epub.TitleIsFirstLine | main.py:46-48 | the chapter's title is the block's first line and never the placeholder; it holds no newline, is a prefix of the block, and is either the whole block or followed by a newline |
| Txt2Epub.TitleThenLinesIsBlock | main.py:47-48 | the title followed by a newline and the remaining lines rebuilds the block; for a one-line block the title is the whole block |
| Txt2Epub.Body | main.py:49 | the body is empty exactly when there is at most one line or the only line after the first is empty |
| Txt2Epub.BodyEmptyIff | main.py:46-49 | the chapter's body is empty if and only if the block has no newline before its last character |
| Txt2Epub.JoinedParagraphs | main.py:49-51 | wrapping the `</p><p>`-join of one or more lines in `<p>`…`</p>` gives one paragraph element per line |
| Txt2Epub.RenderedParagraphs | main.py:49-51 | `Render` applied to a title and the body of some lines gives the title heading followed by one paragraph element per line after the first, or by one empty paragraph when there is no such line; no escaping is applied |
| Txt2Epub.ContentParagraphs | main.py:46-52 | the chapter document `RenderChapter` makes from a block is the title heading followed by one paragraph element per body line, or by one empty paragraph when the block has only its title line |
| Txt2Epub.FileNameNumber | main.py:50 | the file name `FileName` gives the chapter at 0-based position i has the form chap_<digits>.xhtml and carries the number i+1 |
| Txt2Epub.FileNamesDistinct | main.py:46-50 | chapters at different positions get different file names |
| Txt2Epub.BuildBook | main.py:38-65 | the chapter loop, followed by the TOC, navigation and spine assignments, produces the package `BookOf` describes: items in the order they are added, TOC and spine as appended in the loop |
| Txt2Epub.SpineLayout | main.py:43-65 | in the package `BookOf` describes, the TOC is the chapter list; the spine has one entry more than there are blocks; navigation comes first, then spine entry k is TOC entry k-1 and carries the number k |
| Txt2Epub.OneStylesheet | main.py:38-52 | every chapter links the one stylesheet; the book holds it as the first of the items the model keeps, and it is the only stylesheet item (the cover items come before it, see Left out) |
| Txt2Epub.ChapterNamesDistinct | main.py:46-58 | no two chapters of the package share a file name |

## Left out

- Reading the manuscript and the cover image from disk, and writing the EPUB file (main.py:7-8, 24, 68). These are file I/O. The manuscript is an input string, and the cover is not represented. Reading in text mode already turns `"\r\n"` into `"\n"`, so the model's input is the text after that translation.
- The cover image and the items `set_cover` adds to the book (main.py:24). These are library behaviour on opaque bytes. They are added before the stylesheet, so in the real package the stylesheet is not the first item; the model's item list starts at the stylesheet.
- Metadata: identifier, title, language and author (main.py:17-21). These are hard-coded constants with no logic.
- The stylesheet's CSS text (main.py:27-37). The stylesheet is modelled by its uid, file name and media type only.
- The internals of the EPUB library. This covers what `EpubHtml`, `EpubItem`, `EpubNcx` and `EpubNav` generate, and how the package is serialised (main.py:50, 61-62, 68). The model records only the data the script hands to the library. The NCX and navigation items are opaque entries.
- tests/test_main.py. It imports `read_file`, `clean_lines` and `process_text`, which main.py does not define, so there is no behaviour to model.
- Python strings are sequences of code points. The model uses Dafny `char` sequences with no Unicode normalisation, and reading the file with the platform's default encoding is not modelled.

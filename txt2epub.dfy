/** The manuscript-to-e-book script: the text is cut into chapter blocks at
    blank lines, each block becomes one XHTML chapter whose first line is the
    title, and the package lists the navigation document followed by every
    chapter, all sharing one stylesheet. */
module Txt2Epub {
  import opened PyStr

  /** Separator between chapter blocks: one blank line. */
  const ChapterSep := "\n\n"
  /** Separator between the lines of a block. */
  const LineSep := "\n"
  /** What the body lines are joined with inside the chapter's paragraph. */
  const ParagraphSep := "</p><p>"

  const NamePrefix := "chap_"
  const NameSuffix := ".xhtml"

  /** The stylesheet item the script registers once and links from every chapter. */
  datatype StyleItem = StyleItem(uid: string, fileName: string, mediaType: string)

  const DefaultCss := StyleItem("style_nav", "style/nav.css", "text/css")

  /** One chapter document as handed to the e-book library. */
  datatype Chapter = Chapter(
    title: string,
    fileName: string,
    lang: string,
    body: string,
    content: string,
    links: seq<StyleItem>)

  /** The items added to the book, in the order they are added. */
  datatype Item = Css(style: StyleItem) | Doc(chapter: Chapter) | Ncx | Nav

  /** An entry of the reading order: the navigation document or a chapter. */
  datatype SpineEntry = NavEntry | ChapterEntry(chapter: Chapter)

  datatype Book = Book(items: seq<Item>, toc: seq<Chapter>, spine: seq<SpineEntry>)

  /** The chapter blocks of the manuscript: at least one, joined back with
      the blank-line separator they are the manuscript, and none of them
      contains that separator. */
  function Blocks(text: string): (r: seq<string>)
    ensures |r| >= 1 && Join(r, ChapterSep) == text
    ensures forall k :: 0 <= k < |r| ==> !Contains(r[k], ChapterSep)
  {
    SplitPiecesFree(text, ChapterSep);
    Split(text, ChapterSep)
  }

  /** The lines of one chapter block: at least one, joined back with
      newlines they are the block, and none of them holds a newline. */
  function Lines(block: string): (r: seq<string>)
    ensures |r| >= 1 && Join(r, LineSep) == block
    ensures forall k :: 0 <= k < |r| ==> '\n' !in r[k]
  {
    SplitOnCharFree(block, '\n');
    Split(block, LineSep)
  }

  /** The title rule: the first line when there is one, otherwise a numbered
      placeholder; a title taken from a newline-free line, or the
      placeholder, holds no newline. */
  function Title(lines: seq<string>, i: nat): (r: string)
    ensures |lines| > 0 ==> r == lines[0]
    ensures (|lines| == 0 || '\n' !in lines[0]) ==> '\n' !in r
  {
    if |lines| > 0 then lines[0] else "Chapter " + Decimal(i + 1)
  }

  /** The body: every line after the first, joined into one paragraph run.
      It is empty exactly when there is no second line or the only further
      line is empty. */
  function Body(lines: seq<string>): (r: string)
    ensures r == "" <==> |lines| <= 1 || lines[1..] == [""]
  {
    if |lines| > 1 then
      JoinEmpty(lines[1..], ParagraphSep);
      Join(lines[1..], ParagraphSep)
    else ""
  }

  /** The file name of the chapter at 0-based position `i`. */
  function FileName(i: nat): string
  {
    NamePrefix + Decimal(i + 1) + NameSuffix
  }

  /** The chapter document: a heading with the title, then the body inside
      one paragraph element; nothing is escaped. */
  function Render(title: string, body: string): string
  {
    "<h2>" + title + "</h2><p>" + body + "</p>"
  }

  /** The chapter built from the block at 0-based position `i`. */
  function RenderChapter(i: nat, block: string): Chapter
  {
    var lines := Lines(block);
    var title := Title(lines, i);
    var body := Body(lines);
    Chapter(title, FileName(i), "en", body, Render(title, body), [DefaultCss])
  }

  /** The chapters of the manuscript, in block order: one per block. That
      chapter k is rendered from block k is SegmentAt; its number and its
      stylesheet link are stated in SpineLayout and OneStylesheet. */
  function Segment(text: string): (r: seq<Chapter>)
    ensures |r| == |Blocks(text)|
  {
    var blocks := Blocks(text);
    seq(|blocks|, i requires 0 <= i < |blocks| => RenderChapter(i, blocks[i]))
  }

  /** The package built around a list of chapters: the stylesheet, every
      chapter and the two navigation items; the chapters as the table of
      contents; the navigation document and then every chapter as the spine. */
  function Assemble(chs: seq<Chapter>): Book
  {
    Book(
      [Css(DefaultCss)] + seq(|chs|, k requires 0 <= k < |chs| => Doc(chs[k])) + [Ncx, Nav],
      chs,
      [NavEntry] + seq(|chs|, k requires 0 <= k < |chs| => ChapterEntry(chs[k])))
  }

  /** The package the script assembles from the manuscript. */
  function BookOf(text: string): Book
  {
    Assemble(Segment(text))
  }

  /** The script's chapter loop: it appends each rendered chapter to the
      book's items, to the chapter list and to the reading order, then sets
      the table of contents, adds the navigation items and sets the spine. */
  method BuildBook(text: string) returns (book: Book)
    ensures book == BookOf(text)
  {
    var blocks := Blocks(text);
    ghost var chs := Segment(text);
    var items := [Css(DefaultCss)];
    var bookChapters: seq<Chapter> := [];
    var bookSpine := [NavEntry];
    var i := 0;
    while i < |blocks|
      invariant 0 <= i <= |blocks|
      invariant bookChapters == chs[..i]
      invariant |items| == i + 1 && items[0] == Css(DefaultCss)
      invariant forall k :: 0 <= k < i ==> items[k + 1] == Doc(bookChapters[k])
      invariant |bookSpine| == i + 1 && bookSpine[0] == NavEntry
      invariant forall k :: 0 <= k < i ==> bookSpine[k + 1] == ChapterEntry(bookChapters[k])
    {
      var c := RenderChapter(i, blocks[i]);
      SegmentAt(text, i);
      PrefixStep(chs, bookChapters, i, c);
      items := items + [Doc(c)];
      bookChapters := bookChapters + [c];
      bookSpine := bookSpine + [ChapterEntry(c)];
      i := i + 1;
    }
    var toc := bookChapters;
    items := items + [Ncx, Nav];
    book := Book(items, toc, bookSpine);
    assert toc == chs;
    Assembled(toc, items, bookSpine);
  }

  /** Appending the next element to a prefix gives the next prefix. */
  lemma PrefixStep<T>(s: seq<T>, prefix: seq<T>, i: nat, x: T)
    requires i < |s| && prefix == s[..i] && x == s[i]
    ensures prefix + [x] == s[..i + 1]
  {
    assert s[..i + 1] == s[..i] + [s[i]];
  }

  /** The chapter at position `i` is rendered from block `i`. */
  lemma SegmentAt(text: string, i: nat)
    requires i < |Blocks(text)|
    ensures Segment(text)[i] == RenderChapter(i, Blocks(text)[i])
  {
  }

  /** Lists laid out as the loop lays them out are the assembled package. */
  lemma Assembled(chs: seq<Chapter>, items: seq<Item>, spine: seq<SpineEntry>)
    requires |items| == |chs| + 3 && items[0] == Css(DefaultCss)
    requires forall k :: 0 <= k < |chs| ==> items[k + 1] == Doc(chs[k])
    requires items[|chs| + 1] == Ncx && items[|chs| + 2] == Nav
    requires |spine| == |chs| + 1 && spine[0] == NavEntry
    requires forall k :: 0 <= k < |chs| ==> spine[k + 1] == ChapterEntry(chs[k])
    ensures Book(items, chs, spine) == Assemble(chs)
  {
    var b := Assemble(chs);
    assert items == b.items;
    assert spine == b.spine;
  }

  /** The chapter number a file name carries, or -1 when it is not a
      chapter file name. */
  function ChapterNumber(name: string): int
  {
    if |name| > |NamePrefix| + |NameSuffix|
       && name[..|NamePrefix|] == NamePrefix
       && name[|name| - |NameSuffix|..] == NameSuffix
       && IsDigits(name[|NamePrefix|..|name| - |NameSuffix|])
    then ParseDecimal(name[|NamePrefix|..|name| - |NameSuffix|])
    else -1
  }

  // ---------------------------------------------------------------------
  // Segmentation

  /** The blocks are the one left-to-right, non-overlapping split of the
      manuscript: any well-formed pieces that join to it are the blocks. */
  lemma BlocksUnique(text: string, parts: seq<string>)
    requires SplitPieces(parts, ChapterSep) && Join(parts, ChapterSep) == text
    ensures parts == Blocks(text)
  {
    SplitJoin(parts, ChapterSep);
  }

  /** An empty manuscript gives exactly one chapter, with an empty title and
      body and the name chap_1.xhtml. */
  lemma EmptyManuscript()
    ensures Segment("") ==
      [Chapter("", "chap_1.xhtml", "en", "", "<h2></h2><p></p>", [DefaultCss])]
  {
    assert Blocks("") == [""];
    assert Lines("") == [""];
    assert Decimal(1) == "1";
    assert FileName(0) == "chap_1.xhtml";
    assert Render("", "") == "<h2></h2><p></p>";
    assert RenderChapter(0, "") == Chapter("", "chap_1.xhtml", "en", "", "<h2></h2><p></p>", [DefaultCss]);
  }

  /** Three newlines in a row start the next block with a newline, so that
      block's chapter has an empty title. */
  lemma ThreeNewlines()
    ensures Blocks("a\n\n\nb") == ["a", "\nb"]
    ensures Segment("a\n\n\nb")[1].title == ""
  {
    assert "\nb"[0..2][1] != ChapterSep[1];
    assert forall i: nat :: !OccursAt("\nb", ChapterSep, i);
    assert "a\n\n"[0..2][0] != ChapterSep[0];
    assert CutsAtEnd("a", ChapterSep);
    assert Join(["a", "\nb"], ChapterSep) == "a\n\n\nb";
    BlocksUnique("a\n\n\nb", ["a", "\nb"]);
    SegmentAt("a\n\n\nb", 1);
  }

  /** A manuscript ending in a blank line has an empty last block, whose
      chapter has an empty title and an empty body. */
  lemma TrailingBlankLine()
    ensures Blocks("x\n\n") == ["x", ""]
    ensures Segment("x\n\n")[1].title == "" && Segment("x\n\n")[1].body == ""
  {
    assert forall i: nat :: !OccursAt("", ChapterSep, i);
    assert "x\n\n"[0..2][0] != ChapterSep[0];
    assert CutsAtEnd("x", ChapterSep);
    assert Join(["x", ""], ChapterSep) == "x\n\n";
    BlocksUnique("x\n\n", ["x", ""]);
    assert Lines("") == [""];
    SegmentAt("x\n\n", 1);
  }

  // ---------------------------------------------------------------------
  // Title and body of one chapter

  /** The title is the first line of the block: the placeholder is never
      used, the title holds no newline, it is a prefix of the block, and the
      block either ends with it or continues with a newline. */
  lemma TitleIsFirstLine(i: nat, block: string)
    ensures RenderChapter(i, block).title == Lines(block)[0]
    ensures '\n' !in RenderChapter(i, block).title
    ensures RenderChapter(i, block).title <= block
    ensures |RenderChapter(i, block).title| < |block| ==>
              block[|RenderChapter(i, block).title|] == '\n'
  {
    var lines := Lines(block);
    if |lines| > 1 {
      assert block == lines[0] + LineSep + Join(lines[1..], LineSep);
    }
  }

  /** The title, a newline and the remaining lines rebuild the block. */
  lemma TitleThenLinesIsBlock(i: nat, block: string)
    ensures |Lines(block)| == 1 ==> RenderChapter(i, block).title == block
    ensures |Lines(block)| > 1 ==>
              RenderChapter(i, block).title + "\n" + Join(Lines(block)[1..], LineSep) == block
  {
  }

  /** The body is empty exactly when the block has no newline before its
      last character: no newline at all, or a single trailing one. */
  lemma BodyEmptyIff(i: nat, block: string)
    ensures RenderChapter(i, block).body == "" <==>
              forall k :: 0 <= k < |block| - 1 ==> block[k] != '\n'
  {
    var lines := Lines(block);
    var bodyLines := lines[1..];
    if |lines| > 1 {
      JoinEmpty(bodyLines, ParagraphSep);
    }
    var noEarlyNewline := forall k :: 0 <= k < |block| - 1 ==> block[k] != '\n';
    if Body(lines) == "" {
      if |lines| == 1 {
        assert block == lines[0];
      } else {
        assert bodyLines == [""];
        assert lines == [lines[0], ""];
        assert block == lines[0] + "\n";
      }
    } else {
      assert |lines| > 1;
      assert block == lines[0] + LineSep + Join(bodyLines, LineSep);
      if |bodyLines| == 1 {
        assert bodyLines[0] != "";
        assert block[|lines[0]|] == '\n' && |lines[0]| < |block| - 1;
      } else {
        assert block[|lines[0]|] == '\n';
        assert |Join(bodyLines, LineSep)| >= 1;
      }
    }
  }

  // ---------------------------------------------------------------------
  // Rendering

  /** One paragraph element per line. */
  function Paragraphs(ls: seq<string>): string
  {
    if ls == [] then "" else "<p>" + ls[0] + "</p>" + Paragraphs(ls[1..])
  }

  lemma {:induction false} JoinedParagraphs(ls: seq<string>)
    requires |ls| >= 1
    ensures "<p>" + Join(ls, ParagraphSep) + "</p>" == Paragraphs(ls)
    decreases |ls|
  {
    if |ls| > 1 {
      JoinedParagraphs(ls[1..]);
      calc {
        "<p>" + Join(ls, ParagraphSep) + "</p>";
        "<p>" + (ls[0] + ParagraphSep + Join(ls[1..], ParagraphSep)) + "</p>";
        ("<p>" + ls[0] + "</p>") + ("<p>" + Join(ls[1..], ParagraphSep) + "</p>");
        Paragraphs(ls);
      }
    }
  }

  /** A document rendered from a title and the body of some lines is the
      title heading followed by one paragraph element per line after the
      first, and a single empty paragraph when there is no such line. */
  lemma RenderedParagraphs(title: string, lines: seq<string>)
    ensures Render(title, Body(lines)) ==
              "<h2>" + title + "</h2>" + Paragraphs(if |lines| > 1 then lines[1..] else [""])
  {
    var body := Body(lines);
    if |lines| > 1 {
      JoinedParagraphs(lines[1..]);
    } else {
      assert Paragraphs([""]) == "<p></p>";
    }
    assert Render(title, body) == "<h2>" + title + "</h2>" + ("<p>" + body + "</p>");
  }

  /** The chapter document is the title heading followed by one paragraph
      element per body line, and a single empty paragraph when the block has
      only its title line. */
  lemma ContentParagraphs(i: nat, block: string)
    ensures RenderChapter(i, block).content ==
              "<h2>" + RenderChapter(i, block).title + "</h2>" +
              Paragraphs(if |Lines(block)| > 1 then Lines(block)[1..] else [""])
  {
    RenderedParagraphs(Title(Lines(block), i), Lines(block));
  }

  // ---------------------------------------------------------------------
  // Naming

  /** A chapter's file name carries its 1-based position. */
  lemma FileNameNumber(i: nat)
    ensures ChapterNumber(FileName(i)) == i + 1
  {
    var name := FileName(i);
    var d := Decimal(i + 1);
    assert name[..|NamePrefix|] == NamePrefix;
    assert name[|name| - |NameSuffix|..] == NameSuffix;
    assert name[|NamePrefix|..|name| - |NameSuffix|] == d;
    DecimalRoundTrip(i + 1);
  }

  /** Different positions get different file names. */
  lemma FileNamesDistinct(i: nat, j: nat)
    requires i != j
    ensures FileName(i) != FileName(j)
  {
    FileNameNumber(i);
    FileNameNumber(j);
  }

  // ---------------------------------------------------------------------
  // Package layout

  /** The reading order is the navigation document, then every chapter in
      block order, the chapter at spine position k numbered k; the table of
      contents is the spine without its first entry. */
  lemma SpineLayout(text: string)
    ensures BookOf(text).toc == Segment(text)
    ensures |BookOf(text).spine| == |Blocks(text)| + 1
    ensures BookOf(text).spine[0] == NavEntry
    ensures forall k :: 1 <= k < |BookOf(text).spine| ==>
              BookOf(text).spine[k] == ChapterEntry(BookOf(text).toc[k - 1])
    ensures forall k :: 1 <= k < |BookOf(text).spine| ==>
              ChapterNumber(BookOf(text).spine[k].chapter.fileName) == k
  {
    var b := BookOf(text);
    forall k | 1 <= k < |b.spine|
      ensures ChapterNumber(b.spine[k].chapter.fileName) == k
    {
      SegmentAt(text, k - 1);
      FileNameNumber(k - 1);
    }
  }

  /** Every chapter links the one stylesheet, which the book holds as its
      first item and as its only stylesheet item. */
  lemma OneStylesheet(text: string)
    ensures forall c :: c in BookOf(text).toc ==> c.links == [DefaultCss]
    ensures |BookOf(text).items| > 0 && BookOf(text).items[0] == Css(DefaultCss)
    ensures forall k :: 0 <= k < |BookOf(text).items| && BookOf(text).items[k].Css? ==>
              k == 0 && BookOf(text).items[k] == Css(DefaultCss)
  {
  }

  /** No two chapters of the book share a file name. */
  lemma ChapterNamesDistinct(text: string)
    ensures forall j, k :: 0 <= j < k < |BookOf(text).toc| ==>
              BookOf(text).toc[j].fileName != BookOf(text).toc[k].fileName
  {
    var b := BookOf(text);
    forall j, k | 0 <= j < k < |b.toc|
      ensures b.toc[j].fileName != b.toc[k].fileName
    {
      FileNamesDistinct(j, k);
    }
  }
}

/**
 * The book update of `apply_annotations_to_epub`: the loaded book is an
 * object whose item list, table of contents and reading order ("spine")
 * are grown in place by appending one new "Annotations" chapter to each.
 * Reading and writing the container file are not modelled; the book is
 * taken as already loaded.
 */
module Epub {
  import opened Extraction
  import opened Markup

  /** An opaque book entry: a title, a file name inside the package and a body. */
  datatype Item = Item(title: string, fileName: string, content: string)

  /** The chapter's fixed title and file name. */
  const ChapterTitle: string := "Annotations"
  const ChapterFile: string := "annotations.xhtml"

  /** The loaded book: three lists that the update only ever appends to. */
  class Book {
    var items: seq<Item>
    var toc: seq<Item>
    var spine: seq<Item>

    constructor (items: seq<Item>, toc: seq<Item>, spine: seq<Item>)
      ensures this.items == items && this.toc == toc && this.spine == spine
    {
      this.items := items;
      this.toc := toc;
      this.spine := spine;
    }

    /** Adding an item to the book: the item list gains it at its end. */
    method AddItem(c: Item)
      modifies this`items
      ensures items == old(items) + [c]
    {
      items := items + [c];
    }

    /** Appending to the table of contents. */
    method AppendToc(c: Item)
      modifies this`toc
      ensures toc == old(toc) + [c]
    {
      toc := toc + [c];
    }

    /** Appending to the reading order. */
    method AppendSpine(c: Item)
      modifies this`spine
      ensures spine == old(spine) + [c]
    {
      spine := spine + [c];
    }
  }

  /**
   * `apply_annotations_to_epub` between reading and writing the file: build
   * the chapter markup, wrap it as a chapter, append it to all three lists.
   * Every list grows by exactly one entry, the new chapter, at its end;
   * nothing already there changes and nothing is merged or deduplicated.
   */
  method ApplyAnnotations(book: Book, annotations: seq<Annotation>) returns (chapter: Item)
    modifies book
    ensures chapter == Item(ChapterTitle, ChapterFile, ChapterMarkup(annotations))
    ensures book.items == old(book.items) + [chapter]
    ensures book.toc == old(book.toc) + [chapter]
    ensures book.spine == old(book.spine) + [chapter]
  {
    var html := BuildMarkup(annotations);
    chapter := Item(ChapterTitle, ChapterFile, html);
    book.AddItem(chapter);
    book.AppendToc(chapter);
    book.AppendSpine(chapter);
  }

  /**
   * Two updates with the same records leave two identical chapters at the
   * end of every list: the update is not idempotent.
   */
  method ApplyTwice(book: Book, annotations: seq<Annotation>)
    modifies book
    ensures var c := Item(ChapterTitle, ChapterFile, ChapterMarkup(annotations));
            book.items == old(book.items) + [c, c]
            && book.toc == old(book.toc) + [c, c]
            && book.spine == old(book.spine) + [c, c]
            && |book.items| == |old(book.items)| + 2
            && multiset(book.items)[c] == multiset(old(book.items))[c] + 2
  {
    var first := ApplyAnnotations(book, annotations);
    var second := ApplyAnnotations(book, annotations);
    assert old(book.items) + [first] + [second] == old(book.items) + [first, second];
    assert old(book.toc) + [first] + [second] == old(book.toc) + [first, second];
    assert old(book.spine) + [first] + [second] == old(book.spine) + [first, second];
  }
}

/**
 * The markup of the generated "Annotations" chapter: a fixed heading, then
 * one `div`/`p` block per record, in record order. Record text is pasted in
 * as it is, with no escaping of markup characters.
 */
module Markup {
  import opened Text
  import opened Extraction

  /** The chapter's fixed first line. */
  const Header: string := "<h1>Annotations</h1>\n"

  /** The opening `div` of a record's block; its class names the record type. */
  function DivOpen(k: Kind): string
  {
    "<div class=\"annotation " + TypeName(k) + "\">\n"
  }

  /** The paragraph holding a record's text, inserted without escaping. */
  function Paragraph(text: string): string
  {
    "<p>" + text + "</p>\n"
  }

  /** The closing line of a record's block. */
  const DivClose: string := "</div>\n"

  /** The block emitted for one record. */
  function Block(a: Annotation): string
  {
    DivOpen(a.kind) + Paragraph(a.text) + DivClose
  }

  /** The blocks of `anns`, one after another, in record order. */
  function Blocks(anns: seq<Annotation>): string
    decreases |anns|
  {
    if anns == [] then "" else Blocks(anns[..|anns| - 1]) + Block(anns[|anns| - 1])
  }

  /** The whole chapter body for `anns`. */
  function ChapterMarkup(anns: seq<Annotation>): string
  {
    Header + Blocks(anns)
  }

  /** The markup-building loop of `apply_annotations_to_epub`. */
  method BuildMarkup(annotations: seq<Annotation>) returns (html: string)
    ensures html == ChapterMarkup(annotations)
  {
    html := Header;
    for k := 0 to |annotations|
      invariant html == Header + Blocks(annotations[..k])
    {
      var ann := annotations[k];
      html := html + DivOpen(ann.kind);
      html := html + Paragraph(ann.text);
      html := html + DivClose;
      assert annotations[..k + 1][..k] == annotations[..k];
      assert Blocks(annotations[..k + 1]) == Blocks(annotations[..k]) + Block(ann);
      AppendBlock(Header, Blocks(annotations[..k]), DivOpen(ann.kind), Paragraph(ann.text), DivClose);
    }
    assert annotations[..|annotations|] == annotations;
  }

  /**
   * Concatenation of strings is associative. Stated over arbitrary strings:
   * the same regrouping asserted on the chapter's own terms inside
   * `BlocksAppend` exceeds the solver's resource limit.
   */
  lemma Associative(a: string, b: string, c: string)
    ensures a + b + c == a + (b + c)
  {
  }

  /**
   * Appending a block's three lines one by one is appending the block. Stated
   * over arbitrary strings: asserted on the loop's own terms inside
   * `BuildMarkup` it comes close to the solver's resource limit.
   */
  lemma AppendBlock(h: string, b: string, d: string, p: string, c: string)
    ensures h + b + d + p + c == h + (b + (d + p + c))
  {
  }

  /** The blocks of a concatenation are the concatenation of the blocks. */
  lemma {:induction false} BlocksAppend(s: seq<Annotation>, t: seq<Annotation>)
    ensures Blocks(s + t) == Blocks(s) + Blocks(t)
    decreases |t|
  {
    if t == [] {
      assert s + t == s;
    } else {
      var u, last := t[..|t| - 1], t[|t| - 1];
      assert (s + t)[..|s + t| - 1] == s + u;
      assert (s + t)[|s + t| - 1] == last;
      BlocksAppend(s, u);
      Associative(Blocks(s), Blocks(u), Block(last));
    }
  }

  /** No records: the chapter is the heading alone. */
  lemma EmptyChapterIsHeader()
    ensures ChapterMarkup([]) == "<h1>Annotations</h1>\n"
  {
  }

  /**
   * Strings regroup freely around a block written as its three lines. A
   * separate lemma because the same step asserted inside `ChapterLayout`
   * exceeds the solver's resource limit.
   */
  lemma Regroup(h: string, p: string, d: string, q: string, c: string, b: string)
    ensures h + (p + (d + q + c) + b) == h + p + d + q + c + b
  {
  }

  /** Every chapter begins with the fixed heading line. */
  lemma ChapterStartsWithHeader(anns: seq<Annotation>)
    ensures |ChapterMarkup(anns)| >= |Header|
    ensures ChapterMarkup(anns)[..|Header|] == "<h1>Annotations</h1>\n"
  {
    assert (Header + Blocks(anns))[..|Header|] == Header;
  }

  /**
   * Record `k`'s block sits, verbatim and in order, between the chapter for
   * the records before it and the blocks of the records after it; the block
   * is the three lines the source appends for one record.
   */
  lemma ChapterLayout(anns: seq<Annotation>, k: nat)
    requires k < |anns|
    ensures ChapterMarkup(anns)
            == ChapterMarkup(anns[..k])
               + ("<div class=\"annotation " + TypeName(anns[k].kind) + "\">\n")
               + ("<p>" + anns[k].text + "</p>\n")
               + "</div>\n"
               + Blocks(anns[k + 1..])
  {
    var a := anns[k];
    assert anns == anns[..k] + [a] + anns[k + 1..];
    BlocksAppend(anns[..k] + [a], anns[k + 1..]);
    BlocksAppend(anns[..k], [a]);
    assert Blocks([a]) == Block(a) by {
      assert [a][..0] == [];
    }
    Regroup(Header, Blocks(anns[..k]), DivOpen(a.kind), Paragraph(a.text), DivClose, Blocks(anns[k + 1..]));
  }

  /** Every record's text occurs unchanged, and unescaped, in the chapter. */
  lemma TextAppearsVerbatim(anns: seq<Annotation>, k: nat)
    requires k < |anns|
    ensures Contains(ChapterMarkup(anns), anns[k].text)
  {
    var a := anns[k];
    ChapterLayout(anns, k);
    var m, d, b := ChapterMarkup(anns[..k]), DivOpen(a.kind), Blocks(anns[k + 1..]);
    Surround(m + d, "<p>", a.text, "</p>\n", DivClose, b);
    InfixIsContained(m + d + "<p>", a.text, "</p>\n" + DivClose + b);
  }

  /**
   * Regrouping around a record's text. A separate lemma because the same step
   * asserted inside `TextAppearsVerbatim` exceeds the solver's resource limit
   * on some solver seeds.
   */
  lemma Surround(m: string, o: string, x: string, e: string, c: string, b: string)
    ensures m + (o + x + e) + c + b == (m + o) + x + (e + c + b)
  {
  }

  /**
   * Because text is not escaped, a record whose text closes its own block and
   * opens another yields the same chapter as two separate records: the
   * chapter does not determine the records it was built from.
   */
  lemma UnescapedTextInjects(x: string, y: string, k1: Kind, k2: Kind)
    ensures ChapterMarkup([Annotation(x + "</p>\n" + "</div>\n" + ("<div class=\"annotation " + TypeName(k2) + "\">\n") + "<p>" + y, k1)])
            == ChapterMarkup([Annotation(x, k1), Annotation(y, k2)])
  {
    var evil := x + "</p>\n" + DivClose + DivOpen(k2) + "<p>" + y;
    var one := [Annotation(evil, k1)];
    var two := [Annotation(x, k1), Annotation(y, k2)];
    BlocksOfOne(one[0]);
    BlocksOfOne(two[0]);
    BlocksOfOne(two[1]);
    assert two == [two[0]] + [two[1]];
    BlocksAppend([two[0]], [two[1]]);
    Injected(Header, DivOpen(k1), x, DivClose, DivOpen(k2), y);
  }

  /** One record's blocks are its block. */
  lemma BlocksOfOne(a: Annotation)
    ensures Blocks([a]) == Block(a)
  {
    assert [a][..0] == [];
    assert "" + Block(a) == Block(a);
  }

  /**
   * The one-record chapter, regrouped around the injected text. A separate
   * lemma because the same step asserted inside `UnescapedTextInjects`
   * exceeds the solver's resource limit.
   */
  lemma Injected(h: string, d1: string, x: string, c: string, d2: string, y: string)
    ensures h + (d1 + ("<p>" + (x + "</p>\n" + c + d2 + "<p>" + y) + "</p>\n") + c)
            == h + (d1 + ("<p>" + x + "</p>\n") + c) + (d2 + ("<p>" + y + "</p>\n") + c)
  {
  }
}

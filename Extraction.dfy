/**
 * Annotation extraction over an already-parsed document: one parent's
 * children, in document order. Every `div` carrying the class `noteHeading`
 * is paired with the first LATER sibling `div` carrying the class
 * `noteText` (not only the one right after it); the pair becomes one
 * annotation record, classified by the heading's text.
 */
module Extraction {
  import opened Wrappers
  import opened Text

  /** One parsed element: its tag name, its class list and its text content. */
  datatype Element = Element(tag: string, classes: set<string>, text: string)

  /** The two record types the extractor produces. */
  datatype Kind = Highlight | Note

  /** An extracted annotation: stripped body text and its type. */
  datatype Annotation = Annotation(text: string, kind: Kind)

  /** The record's `'type'` string as it appears in the generated markup. */
  function TypeName(k: Kind): (r: string)
    ensures r == "highlight" || r == "note"
    ensures r == "highlight" <==> k == Highlight
  {
    match k
    case Highlight => "highlight"
    case Note => "note"
  }

  /** A note heading: a `div` whose classes include `noteHeading`. */
  predicate IsHeading(e: Element)
  {
    e.tag == "div" && "noteHeading" in e.classes
  }

  /** A note body: a `div` whose classes include `noteText`. */
  predicate IsBody(e: Element)
  {
    e.tag == "div" && "noteText" in e.classes
  }

  /** The heading is classified by a case-sensitive substring test on its text. */
  function Classify(headingText: string): (k: Kind)
    ensures k == Highlight <==> exists i: nat :: OccursAt(headingText, "Highlight", i)
  {
    if Contains(headingText, "Highlight") then Highlight else Note
  }

  /** Sequence `hs` lists valid positions of `doc`, strictly increasing. */
  predicate IncreasingIndices(hs: seq<nat>, n: nat)
  {
    (forall k :: 0 <= k < |hs| ==> hs[k] < n)
    && (forall k, m :: 0 <= k < m < |hs| ==> hs[k] < hs[m])
  }

  /** Positions of the headings among `doc[..n]`, in document order. */
  function HeadingsUpTo(doc: seq<Element>, n: nat): (hs: seq<nat>)
    requires n <= |doc|
    ensures IncreasingIndices(hs, n)
    ensures forall i: nat :: i in hs <==> i < n && IsHeading(doc[i])
    decreases n
  {
    if n == 0 then []
    else if IsHeading(doc[n - 1]) then HeadingsUpTo(doc, n - 1) + [n - 1]
    else HeadingsUpTo(doc, n - 1)
  }

  /** `find_all`: the positions of every heading of `doc`, in document order. */
  function Headings(doc: seq<Element>): (hs: seq<nat>)
    ensures IncreasingIndices(hs, |doc|)
    ensures forall i: nat :: i in hs <==> i < |doc| && IsHeading(doc[i])
  {
    HeadingsUpTo(doc, |doc|)
  }

  /** The first body at position `j` or later. */
  function FirstBodyFrom(doc: seq<Element>, j: nat): (r: Option<nat>)
    ensures r.Some? ==> j <= r.value < |doc| && IsBody(doc[r.value])
                        && forall m :: j <= m < r.value ==> !IsBody(doc[m])
    ensures r.None? ==> forall m :: j <= m < |doc| ==> !IsBody(doc[m])
    decreases |doc| - j
  {
    if j >= |doc| then None
    else if IsBody(doc[j]) then Some(j)
    else FirstBodyFrom(doc, j + 1)
  }

  /**
   * `find_next_sibling`: the first body strictly after position `i`, whatever
   * lies between (other elements, further headings).
   */
  function NextBody(doc: seq<Element>, i: nat): (r: Option<nat>)
    ensures r.Some? ==> i < r.value < |doc| && IsBody(doc[r.value])
                        && forall m :: i < m < r.value ==> !IsBody(doc[m])
    ensures r.None? ==> forall m :: i < m < |doc| ==> !IsBody(doc[m])
  {
    FirstBodyFrom(doc, i + 1)
  }

  /** The heading at `h` has a body somewhere after it. */
  predicate Paired(doc: seq<Element>, h: nat)
  {
    NextBody(doc, h).Some?
  }

  /** The record made from the heading at `h` and its body. */
  function RecordAt(doc: seq<Element>, h: nat): (a: Annotation)
    requires h < |doc| && Paired(doc, h)
  {
    Annotation(Strip(doc[NextBody(doc, h).value].text), Classify(doc[h].text))
  }

  /** Records emitted while walking the heading list `hs` (the loop's specification). */
  function Emit(doc: seq<Element>, hs: seq<nat>): seq<Annotation>
    requires forall k :: 0 <= k < |hs| ==> hs[k] < |doc|
    decreases |hs|
  {
    if hs == [] then []
    else
      var h := hs[|hs| - 1];
      Emit(doc, hs[..|hs| - 1]) + (if Paired(doc, h) then [RecordAt(doc, h)] else [])
  }

  /** The headings of `hs` that have a body after them, in the order of `hs`. */
  function Kept(doc: seq<Element>, hs: seq<nat>): (ks: seq<nat>)
    requires forall k :: 0 <= k < |hs| ==> hs[k] < |doc|
    ensures |ks| <= |hs|
    ensures forall i :: i in ks <==> i in hs && Paired(doc, i)
    ensures IncreasingIndices(hs, |doc|) ==> IncreasingIndices(ks, |doc|)
    decreases |hs|
  {
    if hs == [] then []
    else
      var h := hs[|hs| - 1];
      var init := hs[..|hs| - 1];
      assert forall i: nat :: i in hs <==> i in init || i == h;
      var ki := Kept(doc, init);
      if Paired(doc, h) then
        assert IncreasingIndices(hs, |doc|) ==> forall k :: 0 <= k < |ki| ==> ki[k] < h by {
          if IncreasingIndices(hs, |doc|) {
            forall k | 0 <= k < |ki| ensures ki[k] < h {
              assert ki[k] in init;
            }
          }
        }
        ki + [h]
      else ki
  }

  /** The extractor's result on `doc`: one walk over all its headings. */
  function Extracted(doc: seq<Element>): seq<Annotation>
  {
    Emit(doc, Headings(doc))
  }

  /** `extract_annotations` on an already-parsed sibling list. */
  method ExtractAnnotations(doc: seq<Element>) returns (annotations: seq<Annotation>)
    ensures annotations == Extracted(doc)
  {
    annotations := [];
    var highlights := Headings(doc);
    for k := 0 to |highlights|
      invariant annotations == Emit(doc, highlights[..k])
    {
      var highlight := highlights[k];
      var noteText := NextBody(doc, highlight);
      assert highlights[..k + 1][..k] == highlights[..k];
      if noteText.Some? {
        annotations := annotations + [Annotation(Strip(doc[noteText.value].text), Classify(doc[highlight].text))];
      }
    }
    assert highlights[..|highlights|] == highlights;
  }

  /** The records of a walk are, in order, the records of the kept headings. */
  lemma {:induction false} EmitIsKept(doc: seq<Element>, hs: seq<nat>)
    requires forall k :: 0 <= k < |hs| ==> hs[k] < |doc|
    ensures |Emit(doc, hs)| == |Kept(doc, hs)|
    ensures forall k :: 0 <= k < |Kept(doc, hs)| ==>
              Kept(doc, hs)[k] < |doc| && Paired(doc, Kept(doc, hs)[k])
              && Emit(doc, hs)[k] == RecordAt(doc, Kept(doc, hs)[k])
    decreases |hs|
  {
    if hs != [] {
      var init, h := hs[..|hs| - 1], hs[|hs| - 1];
      EmitIsKept(doc, init);
      var e, ki := Emit(doc, init), Kept(doc, init);
      var es, ks := Emit(doc, hs), Kept(doc, hs);
      assert es == e + (if Paired(doc, h) then [RecordAt(doc, h)] else []);
      assert ks == ki + (if Paired(doc, h) then [h] else []);
      forall k | 0 <= k < |ks|
        ensures ks[k] < |doc| && Paired(doc, ks[k]) && es[k] == RecordAt(doc, ks[k])
      {
        if k < |ki| {
          assert ks[k] == ki[k] && es[k] == e[k];
        } else {
          assert ks[k] == h && es[k] == RecordAt(doc, h);
        }
      }
    }
  }

  /**
   * What extraction produces: exactly one record per paired heading, in
   * document order. Record `k` comes from the `k`-th paired heading: its
   * text is that heading's body text stripped, and it is a highlight
   * exactly when the heading's own text contains `Highlight`.
   */
  lemma ExtractedCharacterized(doc: seq<Element>)
    ensures var ks := Kept(doc, Headings(doc));
            |Extracted(doc)| == |ks|
            && IncreasingIndices(ks, |doc|)
            && (forall i: nat :: i in ks <==> i < |doc| && IsHeading(doc[i]) && Paired(doc, i))
            && (forall k :: 0 <= k < |ks| ==> Extracted(doc)[k] == RecordAt(doc, ks[k]))
            && (forall k :: 0 <= k < |ks| ==>
                  Extracted(doc)[k].text == Strip(doc[NextBody(doc, ks[k]).value].text)
                  && (Extracted(doc)[k].kind == Highlight <==> Contains(doc[ks[k]].text, "Highlight")))
  {
    EmitIsKept(doc, Headings(doc));
  }

  /** A record type is only ever `'highlight'` or `'note'`. */
  lemma {:induction false} ExtractedTypes(doc: seq<Element>)
    ensures forall k :: 0 <= k < |Extracted(doc)| ==>
              var a := Extracted(doc)[k];
              (TypeName(a.kind) == "highlight" || TypeName(a.kind) == "note")
              && a.text == Strip(a.text)
  {
    var recs := Extracted(doc);
    var ks := Kept(doc, Headings(doc));
    EmitIsKept(doc, Headings(doc));
    forall k | 0 <= k < |recs|
      ensures recs[k].text == Strip(recs[k].text)
    {
      var body := doc[NextBody(doc, ks[k]).value].text;
      assert recs[k].text == Strip(body);
      StripIdempotent(body);
    }
  }

  /** Dropping an unpaired element from `hs` makes `Kept` strictly shorter. */
  lemma {:induction false} KeptShorterWithOrphan(doc: seq<Element>, hs: seq<nat>, o: nat)
    requires forall k :: 0 <= k < |hs| ==> hs[k] < |doc|
    requires o in hs && !Paired(doc, o)
    ensures |Kept(doc, hs)| < |hs|
    decreases |hs|
  {
    var init := hs[..|hs| - 1];
    if hs[|hs| - 1] != o {
      assert o in init by {
        var k :| 0 <= k < |hs| && hs[k] == o;
        assert init[k] == o;
      }
      KeptShorterWithOrphan(doc, init, o);
    }
  }

  /** Extraction emits at most one record per heading. */
  lemma ExtractedAtMostHeadings(doc: seq<Element>)
    ensures |Extracted(doc)| <= |Headings(doc)|
  {
    ExtractedCharacterized(doc);
  }

  /**
   * A heading with no later body produces no record and no failure: the
   * records then number strictly fewer than the headings.
   */
  lemma OrphanHeadingDropped(doc: seq<Element>, o: nat)
    requires o < |doc| && IsHeading(doc[o]) && !Paired(doc, o)
    ensures |Extracted(doc)| < |Headings(doc)|
    ensures o !in Kept(doc, Headings(doc))
  {
    ExtractedCharacterized(doc);
    KeptShorterWithOrphan(doc, Headings(doc), o);
  }

  /** When every heading has a later body, there is one record per heading. */
  lemma {:induction false} AllPairedKeepsAll(doc: seq<Element>, hs: seq<nat>)
    requires forall k :: 0 <= k < |hs| ==> hs[k] < |doc| && Paired(doc, hs[k])
    ensures Kept(doc, hs) == hs
    decreases |hs|
  {
    if hs != [] {
      AllPairedKeepsAll(doc, hs[..|hs| - 1]);
    }
  }

  lemma NoOrphansOneRecordPerHeading(doc: seq<Element>)
    requires forall i :: 0 <= i < |doc| && IsHeading(doc[i]) ==> Paired(doc, i)
    ensures |Extracted(doc)| == |Headings(doc)|
    ensures forall k :: 0 <= k < |Headings(doc)| ==> Extracted(doc)[k] == RecordAt(doc, Headings(doc)[k])
  {
    var hs := Headings(doc);
    forall k | 0 <= k < |hs| ensures hs[k] < |doc| && Paired(doc, hs[k]) {
      assert hs[k] in hs;
    }
    AllPairedKeepsAll(doc, hs);
    ExtractedCharacterized(doc);
  }

  /** An orphan heading can only come after the last body: every later heading is an orphan too. */
  lemma OrphansAreTrailing(doc: seq<Element>, o: nat, h: nat)
    requires o < h < |doc| && !Paired(doc, o)
    ensures !Paired(doc, h)
  {
  }

  /**
   * Two headings with no body between them share the same body: the later
   * heading does not stop the earlier one's search.
   */
  lemma {:induction false} SharedBody(doc: seq<Element>, i: nat, j: nat)
    requires i < j < |doc|
    requires forall m :: i < m <= j ==> !IsBody(doc[m])
    ensures NextBody(doc, i) == NextBody(doc, j)
  {
    var a := NextBody(doc, i);
    var b := NextBody(doc, j);
    if a.Some? {
      assert j < a.value;
    }
    if b.Some? {
      assert a.Some? && a.value <= b.value;
    }
  }

  /** `<div class="noteHeading">Highlight</div><div class="noteText"> Hello world </div>`. */
  lemma ScenarioHighlight()
    ensures Extracted([Element("div", {"noteHeading"}, "Highlight"),
                       Element("div", {"noteText"}, " Hello world ")])
            == [Annotation("Hello world", Highlight)]
  {
    var doc := [Element("div", {"noteHeading"}, "Highlight"),
                Element("div", {"noteText"}, " Hello world ")];
    HighlightRecord(doc);
    EmitOne(doc, 0);
  }

  lemma HighlightRecord(doc: seq<Element>)
    requires doc == [Element("div", {"noteHeading"}, "Highlight"),
                     Element("div", {"noteText"}, " Hello world ")]
    ensures Headings(doc) == [0]
    ensures Paired(doc, 0) && RecordAt(doc, 0) == Annotation("Hello world", Highlight)
  {
    assert Headings(doc) == [0] by {
      assert HeadingsUpTo(doc, 1) == [0];
    }
    assert NextBody(doc, 0) == Some(1);
    assert Classify(doc[0].text) == Highlight by {
      assert OccursAt("Highlight", "Highlight", 0);
    }
    StripOfHello();
  }

  /** A walk over one paired heading emits its record. */
  lemma EmitOne(doc: seq<Element>, a: nat)
    requires a < |doc| && Paired(doc, a)
    ensures Emit(doc, [a]) == [RecordAt(doc, a)]
  {
    assert [a][..0] == [];
  }

  /** A walk over two paired headings emits their records in order. */
  lemma EmitTwo(doc: seq<Element>, a: nat, b: nat)
    requires a < |doc| && Paired(doc, a) && b < |doc| && Paired(doc, b)
    ensures Emit(doc, [a, b]) == [RecordAt(doc, a), RecordAt(doc, b)]
  {
    assert [a, b][..1] == [a];
    EmitOne(doc, a);
    var ra, rb := RecordAt(doc, a), RecordAt(doc, b);
    assert Emit(doc, [a, b]) == [ra] + [rb];
    assert [ra] + [rb] == [ra, rb];
  }

  lemma StripOfHello()
    ensures Strip(" Hello world ") == "Hello world"
  {
    var s := " Hello world ";
    assert !IsSpace('H') && !IsSpace('d');
    assert s[1..] == "Hello world ";
    assert LStrip(s[1..]) == "Hello world ";
    assert LStrip(s) == "Hello world ";
    var t := "Hello world ";
    assert t[..|t| - 1] == "Hello world";
    assert RStrip(t[..|t| - 1]) == "Hello world";
    assert RStrip(t) == "Hello world";
  }

  /** Two headings before one body yield two records with the same text. */
  lemma ScenarioTwoHeadingsOneBody()
    ensures Extracted([Element("div", {"noteHeading"}, "Highlight"),
                       Element("div", {"noteHeading"}, "Note"),
                       Element("div", {"noteText"}, "Hello world")])
            == [Annotation("Hello world", Highlight), Annotation("Hello world", Note)]
  {
    var doc := [Element("div", {"noteHeading"}, "Highlight"),
                Element("div", {"noteHeading"}, "Note"),
                Element("div", {"noteText"}, "Hello world")];
    TwoHeadingsRecords(doc);
    TwoHeadingsFound(doc);
    EmitTwo(doc, 0, 1);
  }

  lemma TwoHeadingsFound(doc: seq<Element>)
    requires doc == [Element("div", {"noteHeading"}, "Highlight"),
                     Element("div", {"noteHeading"}, "Note"),
                     Element("div", {"noteText"}, "Hello world")]
    ensures Headings(doc) == [0, 1]
  {
    assert "noteText"[4] != "noteHeading"[4];
    assert !IsHeading(doc[2]);
    assert HeadingsUpTo(doc, 1) == [0];
    assert HeadingsUpTo(doc, 2) == [0, 1];
  }

  lemma TwoHeadingsRecords(doc: seq<Element>)
    requires doc == [Element("div", {"noteHeading"}, "Highlight"),
                     Element("div", {"noteHeading"}, "Note"),
                     Element("div", {"noteText"}, "Hello world")]
    ensures Paired(doc, 0) && RecordAt(doc, 0) == Annotation("Hello world", Highlight)
    ensures Paired(doc, 1) && RecordAt(doc, 1) == Annotation("Hello world", Note)
  {
    assert OccursAt("Highlight", "Highlight", 0);
    assert !Contains("Note", "Highlight");
    assert "noteText" != "noteHeading" by {
      assert "noteText"[4] != "noteHeading"[4];
    }
    assert !IsBody(doc[1]) && IsBody(doc[2]);
    assert FirstBodyFrom(doc, 2) == Some(2);
    assert FirstBodyFrom(doc, 1) == Some(2);
    assert NextBody(doc, 1) == Some(2);
    StripKeepsTrimmed("Hello world");
  }
}

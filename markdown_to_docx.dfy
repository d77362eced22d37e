/** The element loop of `markdown_to_docx` (py_zerox/src/run_to_docx.py,
    lines 19-71): the HTML elements of the converted markdown, in document
    order, become the blocks of a word-processing document, and the
    document is saved only if no element made the conversion fail. */
module MarkdownToDocx {
  import opened DocxDocument

  /** One HTML element as the parser yields it: its tag name, its plain
      text and its `href` attribute, if it has one. */
  datatype Element = Element(name: string, text: string, href: Option<string>)

  /** The tag names the loop asks the parser for (line 35). `table` is not
      among them, so the table branch (lines 53-65) is never taken. */
  predicate Asked(name: string) {
    name == "h1" || name == "h2" || name == "h3" || name == "p" || name == "strong" || name == "a"
  }

  /** Every heading is added at this level, whatever its own (lines 36-41). */
  const HeadingLevel: nat := 2

  /** Paragraph format of a `p` element, in points (lines 44-45). */
  const ParagraphSpaceAfter: nat := 0
  const ParagraphLineSpacing: nat := 12

  predicate IsHeadingTag(name: string) {
    name == "h1" || name == "h2" || name == "h3"
  }

  /** A link without a target: `element['href']` raises for it (line 52). */
  predicate MissingHref(e: Element) {
    e.name == "a" && e.href.None?
  }

  /** The elements the loop visits: those of the document (in document
      order) whose tag name is one it asks for. */
  function Visited(elements: seq<Element>): (v: seq<Element>)
    ensures |v| <= |elements|
    ensures forall i :: 0 <= i < |v| ==> Asked(v[i].name)
  {
    if elements == [] then []
    else (if Asked(elements[0].name) then [elements[0]] else []) + Visited(elements[1..])
  }

  /** The block one visited element becomes (lines 36-52), or `None` when
      building it raises. */
  function BlockFor(e: Element): (r: Option<Block>)
    requires Asked(e.name)
    ensures r.None? <==> MissingHref(e)
  {
    if e.name == "h1" then Some(Heading(HeadingLevel, e.text))
    else if e.name == "h2" then Some(Heading(HeadingLevel, e.text))
    else if e.name == "h3" then Some(Heading(HeadingLevel, e.text))
    else if e.name == "p" then
      Some(Paragraph(e.text, [], Some(ParagraphSpaceAfter), Some(ParagraphLineSpacing)))
    else if e.name == "strong" then
      Some(Paragraph("", [Run(e.text, true, false)], None, None))
    else
      match e.href
      case None => None
      case Some(url) =>
        Some(Paragraph("", [Run(e.text, false, true), Run("(" + url + ")", false, true)], None, None))
  }

  /** The blocks of the saved document, or `None` when no document is
      saved: one block per visited element, in the same order, unless some
      visited link lacks its target. */
  function Conversion(elements: seq<Element>): (r: Option<seq<Block>>)
    ensures r.Some? ==> |r.value| <= |elements|
  {
    BlocksOf(Visited(elements))
  }

  /** The blocks of a sequence of visited elements, one per element in the
      same order, or `None` if one of them is a link without a target. */
  function BlocksOf(v: seq<Element>): (r: Option<seq<Block>>)
    requires forall i :: 0 <= i < |v| ==> Asked(v[i].name)
    ensures r.None? <==> exists i :: 0 <= i < |v| && BlockFor(v[i]).None?
    ensures r.Some? ==> |r.value| == |v| && forall i :: 0 <= i < |v| ==> BlockFor(v[i]) == Some(r.value[i])
  {
    if exists i :: 0 <= i < |v| && MissingHref(v[i]) then None
    else Some(seq(|v|, i requires 0 <= i < |v| => BlockFor(v[i]).value))
  }

  /** `markdown_to_docx`: the elements stand for what the markdown and
      HTML parsers yield (lines 22-32); the result is what `doc.save`
      writes (line 68), or `None` when the handler at line 70 caught an
      exception first. */
  method ConvertMarkdown(elements: seq<Element>) returns (saved: Option<seq<Block>>)
    ensures saved == Conversion(elements)
  {
    var doc := new Document();
    var visited := Visited(elements);
    for i := 0 to |visited|
      invariant |doc.blocks| == i
      invariant forall j :: 0 <= j < i ==> !MissingHref(visited[j])
      invariant forall j :: 0 <= j < i ==> BlockFor(visited[j]) == Some(doc.blocks[j])
    {
      var raised := AddBlock(doc, visited[i]);
      if raised {
        // The exception skips `doc.save`.
        return None;
      }
    }
    assert doc.blocks == seq(|visited|, i requires 0 <= i < |visited| => BlockFor(visited[i]).value);
    saved := Some(doc.blocks);
  }

  /** One pass of the loop body (lines 36-52): adds the block of a visited
      element to the document. For a link without a target the lookup of
      `href` raises after the paragraph and its first run were added;
      `raised` reports that, and the document is then never saved. */
  method AddBlock(doc: Document, element: Element) returns (raised: bool)
    requires Asked(element.name)
    modifies doc
    ensures raised == MissingHref(element)
    ensures !raised ==> doc.blocks == old(doc.blocks) + [BlockFor(element).value]
    ensures raised ==> doc.blocks == old(doc.blocks) + [Paragraph("", [Run(element.text, false, true)], None, None)]
  {
    raised := false;
    if element.name == "h1" {
      doc.AddHeading(element.text, HeadingLevel);
    } else if element.name == "h2" {
      doc.AddHeading(element.text, HeadingLevel);
    } else if element.name == "h3" {
      doc.AddHeading(element.text, HeadingLevel);
    } else if element.name == "p" {
      var p := doc.AddParagraph(element.text);
      doc.SetSpaceAfter(p, ParagraphSpaceAfter);
      doc.SetLineSpacing(p, ParagraphLineSpacing);
    } else if element.name == "strong" {
      var p := doc.AddParagraph("");
      var k := doc.AddRun(p, element.text);
      doc.SetBold(p, k);
      assert doc.blocks[p].runs == [Run(element.text, true, false)];
    } else if element.name == "a" {
      var p := doc.AddParagraph("");
      var k := doc.AddRun(p, element.text);
      doc.SetItalic(p, k);
      assert doc.blocks[p].runs == [Run(element.text, false, true)];
      if element.href.None? {
        raised := true;
        return;
      }
      k := doc.AddRun(p, "(" + element.href.value + ")");
      doc.SetItalic(p, k);
      assert doc.blocks[p].runs == [Run(element.text, false, true), Run("(" + element.href.value + ")", false, true)];
    }
  }

  // ---------------------------------------------------------------------
  // Which elements are visited, and in what order.
  // ---------------------------------------------------------------------

  /** An element is visited exactly when it is in the document and its
      tag name is one the loop asks for. */
  lemma {:induction false} VisitedMembers(elements: seq<Element>, e: Element)
    ensures e in Visited(elements) <==> e in elements && Asked(e.name)
  {
    if elements != [] {
      VisitedMembers(elements[1..], e);
      assert elements == [elements[0]] + elements[1..];
    }
  }

  /** The visited elements of two consecutive parts of a document are
      those of the first part followed by those of the second. */
  lemma {:induction false} VisitedAppend(a: seq<Element>, b: seq<Element>)
    ensures Visited(a + b) == Visited(a) + Visited(b)
  {
    if a != [] {
      VisitedAppend(a[1..], b);
      assert (a + b)[1..] == a[1..] + b;
    } else {
      assert a + b == b;
    }
  }

  /** The positions in the document of the visited elements. */
  function Positions(elements: seq<Element>): (pos: seq<nat>)
    ensures |pos| == |Visited(elements)|
  {
    if elements == [] then []
    else
      var rest := Positions(elements[1..]);
      (if Asked(elements[0].name) then [0] else []) + seq(|rest|, i requires 0 <= i < |rest| => rest[i] + 1)
  }

  /** Visited element `i` is the element at position `Positions(elements)[i]`. */
  lemma {:induction false} PositionsLocate(elements: seq<Element>)
    ensures forall i :: 0 <= i < |Positions(elements)| ==>
      Positions(elements)[i] < |elements| && elements[Positions(elements)[i]] == Visited(elements)[i]
  {
    if elements != [] {
      var tail := elements[1..];
      PositionsLocate(tail);
      var pos, rest := Positions(elements), Positions(tail);
      var h := if Asked(elements[0].name) then 1 else 0;
      forall i | 0 <= i < |pos|
        ensures pos[i] < |elements| && elements[pos[i]] == Visited(elements)[i]
      {
        if i >= h {
          assert pos[i] == rest[i - h] + 1;
          assert Visited(elements)[i] == Visited(tail)[i - h];
          assert elements[pos[i]] == tail[rest[i - h]];
        }
      }
    }
  }

  /** The visited elements keep the document's order. */
  lemma {:induction false} PositionsIncrease(elements: seq<Element>)
    ensures forall i, j :: 0 <= i < j < |Positions(elements)| ==> Positions(elements)[i] < Positions(elements)[j]
  {
    if elements != [] {
      var tail := elements[1..];
      PositionsIncrease(tail);
      var pos, rest := Positions(elements), Positions(tail);
      var h := if Asked(elements[0].name) then 1 else 0;
      forall i, j | 0 <= i < j < |pos|
        ensures pos[i] < pos[j]
      {
        assert pos[j] == rest[j - h] + 1;
        if i >= h {
          assert pos[i] == rest[i - h] + 1;
        }
      }
    }
  }

  /** Every element whose tag name the loop asks for is visited. */
  lemma {:induction false} PositionsCover(elements: seq<Element>, k: nat)
    requires k < |elements| && Asked(elements[k].name)
    ensures k in Positions(elements)
  {
    var pos := Positions(elements);
    var h := if Asked(elements[0].name) then 1 else 0;
    if k > 0 {
      var tail := elements[1..];
      assert tail[k - 1] == elements[k];
      PositionsCover(tail, k - 1);
      var rest := Positions(tail);
      var i :| 0 <= i < |rest| && rest[i] == k - 1;
      assert pos[i + h] == k;
    } else {
      assert pos[0] == 0;
    }
  }

  // ---------------------------------------------------------------------
  // What the saved document holds.
  // ---------------------------------------------------------------------

  /** All or nothing: no document is saved exactly when some link of the
      document, visited like every `a` element, lacks its target. Element
      texts and targets are taken to be XML-compatible; the document
      library's error for a control character is not modelled. */
  lemma AllOrNothing(elements: seq<Element>)
    ensures Conversion(elements).None? <==> exists e :: e in elements && MissingHref(e)
  {
    var v := Visited(elements);
    if exists e :: e in elements && MissingHref(e) {
      var e :| e in elements && MissingHref(e);
      VisitedMembers(elements, e);
      var i :| 0 <= i < |v| && v[i] == e;
    } else {
      forall i | 0 <= i < |v|
        ensures !MissingHref(v[i])
      {
        VisitedMembers(elements, v[i]);
      }
    }
  }

  /** When a document is saved, block `i` is the one visited element `i`
      becomes: as many blocks as visited elements, and block `i` comes from
      the document element at `Positions(elements)[i]`, so the blocks follow
      the document's order. */
  lemma ConversionBlocks(elements: seq<Element>)
    requires Conversion(elements).Some?
    ensures var blocks, v := Conversion(elements).value, Visited(elements);
      |blocks| == |v| && forall i :: 0 <= i < |v| ==> BlockFor(v[i]) == Some(blocks[i])
    ensures var blocks, pos := Conversion(elements).value, Positions(elements);
      |blocks| == |pos| &&
      forall i :: 0 <= i < |blocks| ==>
        pos[i] < |elements| && Asked(elements[pos[i]].name) && BlockFor(elements[pos[i]]) == Some(blocks[i])
  {
    PositionsLocate(elements);
  }

  /** Converting a document is converting its two parts and placing their
      blocks one after the other; it fails when either part fails. */
  lemma ConversionAppend(a: seq<Element>, b: seq<Element>)
    ensures Conversion(a + b) ==
      if Conversion(a).Some? && Conversion(b).Some? then Some(Conversion(a).value + Conversion(b).value)
      else None
  {
    VisitedAppend(a, b);
    BlocksOfAppend(Visited(a), Visited(b));
  }

  lemma BlocksOfAppend(va: seq<Element>, vb: seq<Element>)
    requires forall i :: 0 <= i < |va| ==> Asked(va[i].name)
    requires forall i :: 0 <= i < |vb| ==> Asked(vb[i].name)
    ensures BlocksOf(va + vb) ==
      if BlocksOf(va).Some? && BlocksOf(vb).Some? then Some(BlocksOf(va).value + BlocksOf(vb).value)
      else None
  {
    var v := va + vb;
    if BlocksOf(va).Some? && BlocksOf(vb).Some? {
      forall i | 0 <= i < |v|
        ensures !MissingHref(v[i])
      {
        if i >= |va| {
          assert v[i] == vb[i - |va|];
        }
      }
      var x, y, z := BlocksOf(va).value, BlocksOf(vb).value, BlocksOf(v).value;
      forall i | 0 <= i < |z|
        ensures z[i] == (x + y)[i]
      {
        if i >= |va| {
          assert v[i] == vb[i - |va|];
        }
      }
      assert z == x + y;
    } else if BlocksOf(va).None? {
      var i :| 0 <= i < |va| && MissingHref(va[i]);
      assert v[i] == va[i];
    } else {
      var i :| 0 <= i < |vb| && MissingHref(vb[i]);
      assert v[|va| + i] == vb[i];
    }
  }

  /** An element whose tag name the loop does not ask for, such as a
      `table`, makes no difference to the saved document. */
  lemma UnrecognizedIgnored(a: seq<Element>, e: Element, b: seq<Element>)
    requires !Asked(e.name)
    ensures Conversion(a + [e] + b) == Conversion(a + b)
  {
    var va, vb := Visited(a), Visited(b);
    assert Visited([e]) == [];
    VisitedAppend(a, [e]);
    assert Visited(a + [e]) == va;
    VisitedAppend(a + [e], b);
    VisitedAppend(a, b);
    assert Visited(a + [e] + b) == va + vb == Visited(a + b);
  }

  /** A document made only of elements the loop asks for is visited
      whole. */
  lemma {:induction false} AllAsked(elements: seq<Element>)
    requires forall i :: 0 <= i < |elements| ==> Asked(elements[i].name)
    ensures Visited(elements) == elements
  {
    if elements != [] {
      assert forall i :: 0 <= i < |elements[1..]| ==> elements[1..][i] == elements[i + 1];
      AllAsked(elements[1..]);
      assert [elements[0]] + elements[1..] == elements;
    }
  }

  /** A document with no element the loop asks for is saved empty. */
  lemma {:induction false} NothingRecognized(elements: seq<Element>)
    requires forall i :: 0 <= i < |elements| ==> !Asked(elements[i].name)
    ensures Visited(elements) == [] && Conversion(elements) == Some([])
  {
    if |elements| > 0 {
      assert forall i :: 0 <= i < |elements[1..]| ==> elements[1..][i] == elements[i + 1];
      NothingRecognized(elements[1..]);
      assert !Asked(elements[0].name);
      assert Visited(elements) == [];
    }
    assert |Conversion(elements).value| == 0;
  }

  // ---------------------------------------------------------------------
  // What each visited element becomes.
  // ---------------------------------------------------------------------

  /** `h1`, `h2` and `h3` all become a heading at level 2 with the
      element's text: the source level is lost. */
  lemma HeadingsFlattened(e: Element, f: Element)
    requires IsHeadingTag(e.name) && IsHeadingTag(f.name) && e.text == f.text
    ensures BlockFor(e) == BlockFor(f) == Some(Heading(2, e.text))
  {
  }

  /** A `p` becomes a paragraph with the element's text, no runs, no space
      after it and a line spacing of 12 points. */
  lemma ParagraphCompact(e: Element)
    requires e.name == "p"
    ensures BlockFor(e) == Some(Paragraph(e.text, [], Some(0), Some(12)))
    ensures BlockText(BlockFor(e).value) == e.text
  {
  }

  /** A `strong` becomes a paragraph of its own holding one bold run with
      the element's text. */
  lemma StrongBold(e: Element)
    requires e.name == "strong"
    ensures var b := BlockFor(e).value;
      b.Paragraph? && b.text == "" && |b.runs| == 1 &&
      b.runs[0] == Run(e.text, true, false) && BlockText(b) == e.text
  {
    var b := BlockFor(e).value;
    assert b.runs[1..] == [];
    assert RunsText(b.runs) == e.text + "";
    assert "" + e.text == e.text + "" == e.text;
  }

  /** A link with a target becomes a paragraph of two italic runs, the
      link's text and then its target in parentheses, with nothing between
      them. */
  lemma LinkItalic(e: Element, url: string)
    requires e.name == "a" && e.href == Some(url)
    ensures var b := BlockFor(e).value;
      b.Paragraph? && b.text == "" && |b.runs| == 2 &&
      b.runs[0] == Run(e.text, false, true) && b.runs[1] == Run("(" + url + ")", false, true) &&
      BlockText(b) == e.text + "(" + url + ")"
  {
    var b := BlockFor(e).value;
    var tail := "(" + url + ")";
    assert b.runs[1..] == [b.runs[1]] && b.runs[1..][1..] == [];
    assert RunsText(b.runs[1..]) == tail + "";
    assert RunsText(b.runs) == e.text + (tail + "");
    assert tail + "" == tail && "" + (e.text + tail) == e.text + tail;
  }

  /** The markdown `# Title`, `Some text`, `**Bold line**` and
      `[link](url)` parse to an `h1`, a `p`, a `p` holding a `strong` and
      a `p` holding an `a`; the parser yields each enclosing `p` before
      what it holds, so the document gets six blocks, the emphasis and the
      link each after a plain paragraph with the same text. */
  lemma FourLineExample(title: string, text: string, bold: string, link: string, url: string)
    ensures Conversion([
        Element("h1", title, None),
        Element("p", text, None),
        Element("p", bold, None),
        Element("strong", bold, None),
        Element("p", link, None),
        Element("a", link, Some(url))])
      == Some([
        Heading(2, title),
        Paragraph(text, [], Some(0), Some(12)),
        Paragraph(bold, [], Some(0), Some(12)),
        Paragraph("", [Run(bold, true, false)], None, None),
        Paragraph(link, [], Some(0), Some(12)),
        Paragraph("", [Run(link, false, true), Run("(" + url + ")", false, true)], None, None)])
  {
    var es := [
        Element("h1", title, None),
        Element("p", text, None),
        Element("p", bold, None),
        Element("strong", bold, None),
        Element("p", link, None),
        Element("a", link, Some(url))];
    AllAsked(es);
    var blocks := Conversion(es).value;
    assert |blocks| == 6;
    assert blocks[0] == Heading(2, title);
    assert blocks[1] == Paragraph(text, [], Some(0), Some(12));
    assert blocks[2] == Paragraph(bold, [], Some(0), Some(12));
    assert blocks[3] == Paragraph("", [Run(bold, true, false)], None, None);
    assert blocks[4] == Paragraph(link, [], Some(0), Some(12));
    assert blocks[5] == Paragraph("", [Run(link, false, true), Run("(" + url + ")", false, true)], None, None);
    assert blocks == [blocks[0], blocks[1], blocks[2], blocks[3], blocks[4], blocks[5]];
  }
}

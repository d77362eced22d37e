/** The word-processing document that `markdown_to_docx`
    (py_zerox/src/run_to_docx.py) fills: an append-only list of blocks,
    each a heading or a paragraph, whose paragraph format and runs the
    code sets after adding the paragraph. */
module DocxDocument {

  datatype Option<+T> = None | Some(value: T)

  /** A run of text inside a paragraph, with the two character styles the
      code sets (`False` until set). */
  datatype Run = Run(text: string, bold: bool, italic: bool)

  /** One block of the document. A paragraph keeps the text it was added
      with, the runs added to it afterwards and its paragraph format:
      space after and line spacing, in points, `None` until set. */
  datatype Block =
    | Heading(level: nat, text: string)
    | Paragraph(text: string, runs: seq<Run>, spaceAfter: Option<nat>, lineSpacing: Option<nat>)

  /** The concatenated texts of a sequence of runs. */
  function RunsText(runs: seq<Run>): string {
    if runs == [] then "" else runs[0].text + RunsText(runs[1..])
  }

  /** The text a reader sees in a block. */
  function BlockText(b: Block): string {
    match b
    case Heading(_, text) => text
    case Paragraph(text, runs, _, _) => text + RunsText(runs)
  }

  /** The document under construction (`Document()`, line 28). */
  class Document {
    var blocks: seq<Block>

    constructor ()
      ensures blocks == []
    {
      blocks := [];
    }

    /** `doc.add_heading(text, level)`. */
    method AddHeading(text: string, level: nat)
      modifies this
      ensures blocks == old(blocks) + [Heading(level, text)]
    {
      blocks := blocks + [Heading(level, text)];
    }

    /** `doc.add_paragraph(text)`: returns the index of the new paragraph,
        which stands for the paragraph object the code keeps as `p`. */
    method AddParagraph(text: string) returns (p: nat)
      modifies this
      ensures blocks == old(blocks) + [Paragraph(text, [], None, None)]
      ensures p == |old(blocks)| && p < |blocks| && blocks[p].Paragraph?
    {
      p := |blocks|;
      blocks := blocks + [Paragraph(text, [], None, None)];
    }

    /** `p.paragraph_format.space_after = Pt(points)`. */
    method SetSpaceAfter(p: nat, points: nat)
      requires p < |blocks| && blocks[p].Paragraph?
      modifies this
      ensures blocks == old(blocks)[p := old(blocks)[p].(spaceAfter := Some(points))]
    {
      blocks := blocks[p := blocks[p].(spaceAfter := Some(points))];
    }

    /** `p.paragraph_format.line_spacing = Pt(points)`. */
    method SetLineSpacing(p: nat, points: nat)
      requires p < |blocks| && blocks[p].Paragraph?
      modifies this
      ensures blocks == old(blocks)[p := old(blocks)[p].(lineSpacing := Some(points))]
    {
      blocks := blocks[p := blocks[p].(lineSpacing := Some(points))];
    }

    /** `p.add_run(text)`: an unstyled run at the end of paragraph `p`;
        returns the index of the new run within the paragraph. */
    method AddRun(p: nat, text: string) returns (k: nat)
      requires p < |blocks| && blocks[p].Paragraph?
      modifies this
      ensures k == |old(blocks)[p].runs|
      ensures blocks == old(blocks)[p := old(blocks)[p].(runs := old(blocks)[p].runs + [Run(text, false, false)])]
    {
      k := |blocks[p].runs|;
      blocks := blocks[p := blocks[p].(runs := blocks[p].runs + [Run(text, false, false)])];
    }

    /** `run.bold = True` for run `k` of paragraph `p`. */
    method SetBold(p: nat, k: nat)
      requires p < |blocks| && blocks[p].Paragraph? && k < |blocks[p].runs|
      modifies this
      ensures blocks == old(blocks)[p := old(blocks)[p].(runs := old(blocks)[p].runs[k := old(blocks)[p].runs[k].(bold := true)])]
    {
      blocks := blocks[p := blocks[p].(runs := blocks[p].runs[k := blocks[p].runs[k].(bold := true)])];
    }

    /** `run.italic = True` for run `k` of paragraph `p`. */
    method SetItalic(p: nat, k: nat)
      requires p < |blocks| && blocks[p].Paragraph? && k < |blocks[p].runs|
      modifies this
      ensures blocks == old(blocks)[p := old(blocks)[p].(runs := old(blocks)[p].runs[k := old(blocks)[p].runs[k].(italic := true)])]
    {
      blocks := blocks[p := blocks[p].(runs := blocks[p].runs[k := blocks[p].runs[k].(italic := true)])];
    }
  }
}

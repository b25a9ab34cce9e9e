/**
 * `DocString`: the Markdown buffer the generator appends to. `title`,
 * `section` and `subsection` only ever append to it.
 */
module DocStrings {
  import opened Text
  import opened Tags
  import opened Subsection

  /** What `title(t)` appends: a line break, `# t`, a line break. */
  function TitleText(t: string): string {
    "\n" + "# " + t + "\n"
  }

  /** What `section(s)` appends: a line break, `## s`, a line break. */
  function SectionText(s: string): string {
    "\n" + "## " + s + "\n"
  }

  /** One turn of the `subsection` loop at `index`: the piece of Markdown
      it appends and the index of the first line it has not consumed. A tag
      line and a plain line consume one line; an indented line starts a
      code run that the inner loop extends over the indented lines after
      it. */
  method SubsectionStep(lines: seq<string>, index: nat, json: JsonLib)
    returns (block: string, next: nat, piece: Piece)
    requires index < |lines|
    ensures index < next <= |lines|
    ensures Segment(lines[index..]) == [piece] + Segment(lines[next..])
    ensures block == RenderPiece(piece, json)
  {
    var line := lines[index];
    var m := FindTag(line);
    if m.Some? {
      var tag := TagText(line, m.value);
      block := TaggedLine(line, tag);
      piece := TagLine(line, tag);
      next := index + 1;
      SegmentAtTag(lines, index);
    } else if IsIndented(line) {
      block, next := CodeRunStep(lines, index, json);
      piece := CodeRun(lines[index..next]);
      SegmentAtRun(lines, index, next);
    } else {
      block := line;
      piece := PlainLine(line);
      next := index + 1;
      SegmentAtPlain(lines, index);
    }
  }

  /** The inner loop of `subsection`: from the indented line at `index`,
      take every following indented line, then fence the dedented lines,
      as pretty-printed JSON when they parse as JSON. `next` is the first
      line after the run. */
  method CodeRunStep(lines: seq<string>, index: nat, json: JsonLib) returns (block: string, next: nat)
    requires index < |lines| && IsIndented(lines[index])
    ensures index < next <= |lines|
    ensures forall k :: index <= k < next ==> IsIndented(lines[k])
    ensures next == |lines| || !IsIndented(lines[next])
    ensures block == CodeBlock(JoinLines(Dedented(lines[index..next])), json)
  {
    var codeBlock := [SubFirst(lines[index], "  ", "")];
    var last := index;
    assert lines[index..last + 1] == [lines[index]];
    while last + 1 < |lines| && IsIndented(lines[last + 1])
      invariant index <= last < |lines|
      invariant forall k :: index <= k <= last ==> IsIndented(lines[k])
      invariant codeBlock == Dedented(lines[index..last + 1])
      decreases |lines| - last
    {
      DedentedSnoc(lines[index..last + 1], lines[last + 1]);
      assert lines[index..last + 2] == lines[index..last + 1] + [lines[last + 1]];
      codeBlock := codeBlock + [SubFirst(lines[last + 1], "  ", "")];
      last := last + 1;
    }
    next := last + 1;
    block := FenceCode(JoinLines(codeBlock), json);
  }

  /** The `begin … rescue JSON::ParserError` of `subsection`: a fenced JSON
      block when the code parses, a plain fenced block otherwise. */
  method FenceCode(codeStr: string, json: JsonLib) returns (block: string)
    ensures block == CodeBlock(codeStr, json)
    ensures json.parses(codeStr) ==> block == "\n\n```json\n" + json.pretty(codeStr) + "\n```"
    ensures !json.parses(codeStr) ==> block == "\n\n```\n" + codeStr + "\n```"
  {
    CodeBlockShape(codeStr, json);
    if json.parses(codeStr) {
      var pretty := json.pretty(codeStr);
      block := JoinLines(["\n", "```json", pretty, "```"]);
    } else {
      block := JoinLines(["\n", "```", codeStr, "```"]);
    }
  }

  /** Appending a piece's rendering moves it from what is left to render
      to what has been rendered. */
  lemma AppendRendered(text: string, todo: seq<Piece>, piece: Piece, block: string, rest: seq<Piece>, json: JsonLib)
    requires todo == [piece] + rest
    requires block == RenderPiece(piece, json)
    ensures text + RenderAll(todo, json) == (text + block) + RenderAll(rest, json)
  {
    RenderAllAppend([piece], rest, json);
    RenderAllSnoc([], piece, json);
    RenderAllNone(json);
    assert [] + [piece] == [piece];
    assert RenderAll([piece], json) == block;
  }

  class DocString {
    /** `@docstring`, the Markdown text so far. */
    var docstring: string
    /** `@title`, unset (`nil`) until `title` is called. */
    var title: Option<string>

    constructor ()
      ensures docstring == "" && title == None
    {
      docstring := "";
      title := None;
    }

    method Title(t: string)
      modifies this
      ensures title == Some(t)
      ensures docstring == old(docstring) + TitleText(t)
    {
      title := Some(t);
      docstring := docstring + ("\n" + "# " + t + "\n");
    }

    method Section(s: string)
      modifies this`docstring
      ensures docstring == old(docstring) + SectionText(s)
    {
      docstring := docstring + ("\n" + "## " + s + "\n");
    }

    /** Appends one documentation block: its lines (`str.split("\n")`) are
        walked with an index; a tag line appends its `tagged_line`, an
        indented line starts a code run that the inner loop extends over the
        following indented lines before appending one fenced block, and any
        other line is appended as it is. A final line feed closes the
        block. */
    method Subsection(str: string, json: JsonLib)
      modifies this`docstring
      ensures docstring == old(docstring) + SubsectionText(SplitLines(str), json)
    {
      ghost var before := docstring;
      var lines := SplitLines(str);
      var index := 0;

      while index < |lines|
        invariant index <= |lines|
        invariant before + RenderAll(Segment(lines), json)
                  == docstring + RenderAll(Segment(lines[index..]), json)
        decreases |lines| - index
      {
        var block, next, piece := SubsectionStep(lines, index, json);
        AppendRendered(docstring, Segment(lines[index..]), piece, block, Segment(lines[next..]), json);
        docstring := docstring + block;
        index := next;
      }
      assert lines[index..] == [] && Segment([]) == [];
      RenderAllNone(json);
      assert RenderAll(Segment(lines[index..]), json) == "";
      assert docstring + "" == docstring;
      docstring := docstring + "\n";
    }
  }
}

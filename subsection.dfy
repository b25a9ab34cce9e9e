/**
 * The line classification behind `DocString#subsection`: each line of a
 * documentation block is a tag line, the start of an indented code run, or
 * a plain line, and each kind is rendered to Markdown.
 */
module Subsection {
  import opened Text
  import opened Tags

  /** The JSON library, which this model does not look into: `parses(s)`
      holds when `JSON.parse(s)` raises no parser error, and `pretty(s)` is
      `JSON.pretty_generate(JSON.parse(s))`. */
  datatype JsonLib = JsonLib(parses: string -> bool, pretty: string -> string)

  /** `line.start_with?('  ')`. */
  predicate IsIndented(line: string) {
    StartsWith(line, "  ")
  }

  /** What one step of the `subsection` loop consumes. */
  datatype Piece =
    | TagLine(line: string, tag: string)
    | CodeRun(lines: seq<string>)
    | PlainLine(line: string)

  /** The input lines a piece consumed. */
  function PieceLines(p: Piece): seq<string> {
    match p
    case TagLine(line, _) => [line]
    case CodeRun(lines) => lines
    case PlainLine(line) => [line]
  }

  /** All input lines the pieces consumed, in order. */
  function Sources(ps: seq<Piece>): seq<string>
    decreases |ps|
  {
    if ps == [] then [] else PieceLines(ps[0]) + Sources(ps[1..])
  }

  /** The number of leading lines that start with two spaces. */
  function IndentedRun(lines: seq<string>): (n: nat)
    ensures n <= |lines|
    ensures forall k :: 0 <= k < n ==> IsIndented(lines[k])
    ensures n == |lines| || !IsIndented(lines[n])
    decreases |lines|
  {
    if lines == [] || !IsIndented(lines[0]) then 0 else 1 + IndentedRun(lines[1..])
  }

  /** The run length is determined by where the indented lines stop. */
  lemma IndentedRunUnique(lines: seq<string>, n: nat)
    requires n <= |lines|
    requires forall k :: 0 <= k < n ==> IsIndented(lines[k])
    requires n == |lines| || !IsIndented(lines[n])
    ensures IndentedRun(lines) == n
  {
  }

  /** How `subsection` cuts a block's lines into pieces. A line with a tag
      anywhere is a tag line; otherwise a line starting with two spaces opens
      a code run that takes every following line starting with two spaces,
      tagged or not; any other line is plain. Every line is consumed once,
      in order. */
  function Segment(lines: seq<string>): (ps: seq<Piece>)
    ensures Sources(ps) == lines
    decreases |lines|
  {
    if lines == [] then []
    else match FindTag(lines[0])
      case Some(m) => [TagLine(lines[0], TagText(lines[0], m))] + Segment(lines[1..])
      case None =>
        if IsIndented(lines[0]) then
          var n := IndentedRun(lines);
          assert lines[..n] + lines[n..] == lines;
          [CodeRun(lines[..n])] + Segment(lines[n..])
        else
          [PlainLine(lines[0])] + Segment(lines[1..])
  }

  /** The first line a piece consumed. */
  function FirstLine(p: Piece): string {
    match p
    case TagLine(line, _) => line
    case CodeRun(lines) => if lines == [] then "" else lines[0]
    case PlainLine(line) => line
  }

  /** A piece that the classification could have produced on its own. */
  predicate PieceOk(p: Piece) {
    match p
    case TagLine(line, tag) =>
      FindTag(line).Some? && tag == TagText(line, FindTag(line).value)
    case CodeRun(lines) =>
      |lines| > 0 && FindTag(lines[0]).None? && forall k :: 0 <= k < |lines| ==> IsIndented(lines[k])
    case PlainLine(line) =>
      FindTag(line).None? && !IsIndented(line)
  }

  /** Pieces that follow the classification rules, with every code run
      maximal: the line after a run does not start with two spaces. */
  predicate WellFormed(ps: seq<Piece>) {
    && (forall i :: 0 <= i < |ps| ==> PieceOk(ps[i]))
    && (forall i :: 0 <= i < |ps| - 1 ==> ps[i].CodeRun? ==> !IsIndented(FirstLine(ps[i + 1])))
  }

  lemma SourcesHead(ps: seq<Piece>)
    requires ps != [] && PieceOk(ps[0])
    ensures Sources(ps) != [] && Sources(ps)[0] == FirstLine(ps[0])
  {
  }

  /** A rule-following piece in front of rule-following pieces; a code run
      must stop where the next piece starts. */
  lemma WellFormedCons(p: Piece, rest: seq<Piece>)
    requires PieceOk(p) && WellFormed(rest)
    requires p.CodeRun? && rest != [] ==> !IsIndented(FirstLine(rest[0]))
    ensures WellFormed([p] + rest)
  {
    var ps := [p] + rest;
    forall i | 1 <= i < |ps| ensures ps[i] == rest[i - 1] {
    }
  }

  /** The head and the tail of rule-following pieces follow the rules. */
  lemma WellFormedUncons(ps: seq<Piece>)
    requires ps != [] && WellFormed(ps)
    ensures PieceOk(ps[0]) && WellFormed(ps[1..])
    ensures ps[0].CodeRun? && |ps| > 1 ==> !IsIndented(FirstLine(ps[1]))
  {
    var rest := ps[1..];
    forall i | 0 <= i < |rest| ensures rest[i] == ps[i + 1] {
    }
  }

  /** The pieces `subsection` works through follow the rules. */
  lemma {:induction false} SegmentWellFormed(lines: seq<string>)
    ensures WellFormed(Segment(lines))
    decreases |lines|
  {
    if lines != [] {
      match FindTag(lines[0])
      case Some(m) =>
        SegmentWellFormed(lines[1..]);
        WellFormedCons(TagLine(lines[0], TagText(lines[0], m)), Segment(lines[1..]));
      case None =>
        if IsIndented(lines[0]) {
          var n := IndentedRun(lines);
          var rest := Segment(lines[n..]);
          SegmentWellFormed(lines[n..]);
          if rest != [] {
            SourcesHead(rest);
            assert FirstLine(rest[0]) == lines[n..][0] == lines[n];
          }
          WellFormedCons(CodeRun(lines[..n]), rest);
        } else {
          SegmentWellFormed(lines[1..]);
          WellFormedCons(PlainLine(lines[0]), Segment(lines[1..]));
        }
    }
  }

  /** The rules fix the pieces: any well-formed cut of `lines` is the one
      `Segment` makes. */
  lemma {:induction false} SegmentUnique(lines: seq<string>, ps: seq<Piece>)
    requires WellFormed(ps) && Sources(ps) == lines
    ensures ps == Segment(lines)
    decreases |ps|
  {
    if ps != [] {
      var p := ps[0];
      var rest := ps[1..];
      WellFormedUncons(ps);
      assert lines == PieceLines(p) + Sources(rest);
      match p
      case TagLine(line, tag) =>
        assert lines[0] == line && lines[1..] == Sources(rest);
        SegmentUnique(lines[1..], rest);
      case PlainLine(line) =>
        assert lines[0] == line && lines[1..] == Sources(rest);
        SegmentUnique(lines[1..], rest);
      case CodeRun(run) =>
        var n := |run|;
        assert lines[..n] == run && lines[n..] == Sources(rest);
        assert lines[0] == run[0];
        forall k | 0 <= k < n ensures IsIndented(lines[k]) {
          assert lines[k] == run[k];
        }
        if rest != [] {
          SourcesHead(rest);
          assert lines[n] == FirstLine(rest[0]);
        }
        IndentedRunUnique(lines, n);
        SegmentUnique(lines[n..], rest);
    }
  }

  /** Ruby's `["\n", fence, code, '```'].join("\n")`. */
  function Fence(header: string, code: string): string {
    JoinLines(["\n", header, code, "```"])
  }

  /** The block `subsection` appends for a code run whose lines, each
      without its first two spaces, were joined into `raw`. */
  function CodeBlock(raw: string, json: JsonLib): string {
    if json.parses(raw) then Fence("```json", json.pretty(raw)) else Fence("```", raw)
  }

  /** A code run's lines with `line.sub('  ', '')` applied to each. */
  function Dedented(lines: seq<string>): (r: seq<string>)
    ensures |r| == |lines|
  {
    seq(|lines|, k requires 0 <= k < |lines| => SubFirst(lines[k], "  ", ""))
  }

  function RenderPiece(p: Piece, json: JsonLib): string {
    match p
    case TagLine(line, tag) => TaggedLine(line, tag)
    case CodeRun(lines) => CodeBlock(JoinLines(Dedented(lines)), json)
    case PlainLine(line) => line
  }

  /** The pieces' renderings, concatenated with no separator. */
  function RenderAll(ps: seq<Piece>, json: JsonLib): string {
    ConcatMap(ps, p => RenderPiece(p, json))
  }

  /** Everything `subsection` appends for a block with these lines. */
  function SubsectionText(lines: seq<string>, json: JsonLib): string {
    RenderAll(Segment(lines), json) + "\n"
  }

  lemma RenderAllAppend(a: seq<Piece>, b: seq<Piece>, json: JsonLib)
    ensures RenderAll(a + b, json) == RenderAll(a, json) + RenderAll(b, json)
  {
    ConcatMapAppend(a, b, p => RenderPiece(p, json));
  }

  lemma RenderAllNone(json: JsonLib)
    ensures RenderAll([], json) == ""
  {
    ConcatMapPointwise([], (p: Piece) => RenderPiece(p, json), []);
  }

  lemma RenderAllSnoc(ps: seq<Piece>, p: Piece, json: JsonLib)
    ensures RenderAll(ps + [p], json) == RenderAll(ps, json) + RenderPiece(p, json)
  {
    ConcatMapSnoc(ps, p, q => RenderPiece(q, json));
  }

  lemma DedentedSnoc(lines: seq<string>, line: string)
    ensures Dedented(lines + [line]) == Dedented(lines) + [SubFirst(line, "  ", "")]
  {
  }

  /** A code run's text: every line without exactly its first two spaces,
      joined with line feeds. */
  lemma DedentedDropsIndent(lines: seq<string>)
    requires forall k :: 0 <= k < |lines| ==> IsIndented(lines[k])
    ensures forall k :: 0 <= k < |lines| ==> |lines[k]| >= 2 && Dedented(lines)[k] == lines[k][2..]
  {
    forall k | 0 <= k < |lines| ensures |lines[k]| >= 2 && Dedented(lines)[k] == lines[k][2..] {
      SubFirstPrefix(lines[k], "  ");
    }
  }

  /** The two shapes of a code block: a `json` fence around the pretty
      printed JSON when the code parses, a bare fence around the code as
      written otherwise. */
  lemma CodeBlockShape(raw: string, json: JsonLib)
    ensures json.parses(raw) ==> CodeBlock(raw, json) == "\n\n```json\n" + json.pretty(raw) + "\n```"
    ensures !json.parses(raw) ==> CodeBlock(raw, json) == "\n\n```\n" + raw + "\n```"
  {
    FenceShape("```json", json.pretty(raw));
    FenceShape("```", raw);
  }

  lemma FenceShape(header: string, code: string)
    ensures Fence(header, code) == "\n\n" + header + "\n" + code + "\n```"
  {
    var ls := ["\n", header, code, "```"];
    assert JoinLines(ls[3..]) == "```";
    assert JoinLines(ls[2..]) == code + "\n" + "```" by { assert ls[2..][1..] == ls[3..]; }
    assert JoinLines(ls[1..]) == header + "\n" + code + "\n" + "```" by { assert ls[1..][1..] == ls[2..]; }
  }

  /** Lines with no tag that do not start with two spaces are appended
      verbatim one after another, with no separator, then one line feed. */
  lemma {:induction false} PlainLinesConcatenate(lines: seq<string>, json: JsonLib)
    requires forall k :: 0 <= k < |lines| ==> FindTag(lines[k]).None? && !IsIndented(lines[k])
    ensures Segment(lines) == seq(|lines|, k requires 0 <= k < |lines| => PlainLine(lines[k]))
    ensures SubsectionText(lines, json) == Concat(lines) + "\n"
    decreases |lines|
  {
    var ps := seq(|lines|, k requires 0 <= k < |lines| => PlainLine(lines[k]));
    assert WellFormed(ps);
    assert Sources(ps) == lines by { PlainSources(lines); }
    SegmentUnique(lines, ps);
    PlainRender(lines, json);
  }

  lemma {:induction false} PlainSources(lines: seq<string>)
    ensures Sources(seq(|lines|, k requires 0 <= k < |lines| => PlainLine(lines[k]))) == lines
    decreases |lines|
  {
    if lines != [] {
      var ps := seq(|lines|, k requires 0 <= k < |lines| => PlainLine(lines[k]));
      assert ps[1..] == seq(|lines[1..]|, k requires 0 <= k < |lines[1..]| => PlainLine(lines[1..][k]));
      PlainSources(lines[1..]);
      assert [lines[0]] + lines[1..] == lines;
    }
  }

  lemma PlainRender(lines: seq<string>, json: JsonLib)
    ensures RenderAll(seq(|lines|, k requires 0 <= k < |lines| => PlainLine(lines[k])), json) == Concat(lines)
  {
    var ps := seq(|lines|, k requires 0 <= k < |lines| => PlainLine(lines[k]));
    var f := p => RenderPiece(p, json);
    forall i | 0 <= i < |ps| ensures f(ps[i]) == lines[i] {
      assert ps[i] == PlainLine(lines[i]);
    }
    ConcatMapPointwise(ps, f, lines);
  }

  /** A tag anywhere in the first line makes it a tag line even when it
      starts with two spaces; the line alone is consumed. */
  lemma TagBeatsIndent(lines: seq<string>)
    requires lines != [] && FindTag(lines[0]).Some?
    ensures Segment(lines)[0] == TagLine(lines[0], TagText(lines[0], FindTag(lines[0]).value))
    ensures Segment(lines)[1..] == Segment(lines[1..])
  {
  }

  /** A code run opened by an untagged indented line swallows the next
      indented line even if that line holds a tag. */
  lemma RunSwallowsTaggedLine(lines: seq<string>)
    requires |lines| >= 2 && FindTag(lines[0]).None?
    requires IsIndented(lines[0]) && IsIndented(lines[1])
    ensures Segment(lines)[0].CodeRun? && |Segment(lines)[0].lines| >= 2
    ensures Segment(lines)[0].lines[1] == lines[1]
  {
    assert IndentedRun(lines) == 1 + IndentedRun(lines[1..]);
    assert IndentedRun(lines[1..]) >= 1;
  }

  /** `Segment` on the lines from `i` on, one step at a time: the way the
      `subsection` loop walks its index. */
  lemma SegmentAtTag(lines: seq<string>, i: nat)
    requires i < |lines| && FindTag(lines[i]).Some?
    ensures Segment(lines[i..])
            == [TagLine(lines[i], TagText(lines[i], FindTag(lines[i]).value))] + Segment(lines[i + 1..])
  {
    assert lines[i..][0] == lines[i] && lines[i..][1..] == lines[i + 1..];
  }

  lemma SegmentAtPlain(lines: seq<string>, i: nat)
    requires i < |lines| && FindTag(lines[i]).None? && !IsIndented(lines[i])
    ensures Segment(lines[i..]) == [PlainLine(lines[i])] + Segment(lines[i + 1..])
  {
    assert lines[i..][0] == lines[i] && lines[i..][1..] == lines[i + 1..];
  }

  lemma SegmentAtRun(lines: seq<string>, i: nat, j: nat)
    requires i < j <= |lines| && FindTag(lines[i]).None?
    requires forall k :: i <= k < j ==> IsIndented(lines[k])
    requires j == |lines| || !IsIndented(lines[j])
    ensures Segment(lines[i..]) == [CodeRun(lines[i..j])] + Segment(lines[j..])
  {
    var rest := lines[i..];
    assert rest[0] == lines[i];
    forall k | 0 <= k < j - i ensures IsIndented(rest[k]) {
      assert rest[k] == lines[i + k];
    }
    if j < |lines| {
      assert rest[j - i] == lines[j];
    }
    IndentedRunUnique(rest, j - i);
    assert rest[..j - i] == lines[i..j];
    assert rest[j - i..] == lines[j..];
  }
}

/**
 * `CDoc#extract_documentation`: the documentation blocks of one source
 * file, given its lines. A line that strips to `#doc` opens a block; the
 * block collects the stripped comment lines that follow (each without its
 * first `#`), skips blank lines, and ends at the first line that is
 * neither.
 */
module Extraction {
  import opened Text

  const Marker := "#doc"

  predicate IsMarker(line: string) {
    Strip(line) == Marker
  }

  predicate IsBlank(line: string) {
    Strip(line) == ""
  }

  predicate IsComment(line: string) {
    StartsWith(Strip(line), "#")
  }

  /** What a comment line adds to its block: `line.strip.sub('#', '')`. */
  function Remainder(line: string): string {
    SubFirst(Strip(Strip(line)), "#", "")
  }

  /** The blocks found in `lines` while not recording: everything up to a
      marker line is ignored, and the marker itself goes into no block. */
  function Idle(lines: seq<string>): seq<seq<string>>
    decreases |lines|
  {
    if lines == [] then []
    else if IsMarker(lines[0]) then Recording([], lines[1..])
    else Idle(lines[1..])
  }

  /** The blocks found in `lines` while recording a block whose lines so far
      are `pending`. A non-blank, non-comment line closes the block, even an
      empty one; at the end of the input the block is kept only if it has a
      line. */
  function Recording(pending: seq<string>, lines: seq<string>): seq<seq<string>>
    decreases |lines|
  {
    if lines == [] then (if |pending| != 0 then [pending] else [])
    else
      var s := Strip(lines[0]);
      if s == "" then Recording(pending, lines[1..])
      else if StartsWith(s, "#") then Recording(pending + [Remainder(lines[0])], lines[1..])
      else [pending] + Idle(lines[1..])
  }

  /** Each block's lines joined with line feeds, in source order. */
  function JoinAll(blocks: seq<seq<string>>): (docs: seq<string>)
    ensures |docs| == |blocks|
    ensures forall k :: 0 <= k < |blocks| ==> docs[k] == JoinLines(blocks[k])
  {
    seq(|blocks|, k requires 0 <= k < |blocks| => JoinLines(blocks[k]))
  }

  /** The documentation strings `extract_documentation` returns. */
  function Documentation(lines: seq<string>): seq<string> {
    JoinAll(Idle(lines))
  }

  /** The loop of `extract_documentation`, with the `recording` flag and the
      `docs` and `doclines` arrays it updates. */
  method ExtractDocumentation(lines: seq<string>) returns (docs: seq<string>)
    ensures docs == Documentation(lines)
  {
    docs := [];
    var doclines: seq<string> := [];
    var recording := false;
    ghost var blocks: seq<seq<string>> := [];

    for i := 0 to |lines|
      invariant docs == JoinAll(blocks)
      invariant !recording ==> doclines == [] && Idle(lines) == blocks + Idle(lines[i..])
      invariant recording ==> Idle(lines) == blocks + Recording(doclines, lines[i..])
    {
      var line := lines[i];
      if recording {
        RecordingAt(doclines, lines, i);
      } else {
        IdleAt(lines, i);
      }
      if !recording && Strip(line) == Marker {
        recording := true;
        continue;
      }
      if recording {
        var stripped := Strip(line);
        if stripped == "" {
          continue;
        } else if StartsWith(stripped, "#") {
          doclines := doclines + [SubFirst(Strip(stripped), "#", "")];
        } else {
          recording := false;
          JoinAllSnoc(blocks, doclines);
          SeqAssoc(blocks, [doclines], Idle(lines[i + 1..]));
          docs := docs + [JoinLines(doclines)];
          blocks := blocks + [doclines];
          doclines := [];
        }
      }
    }

    if recording && |doclines| != 0 {
      recording := false;
      JoinAllSnoc(blocks, doclines);
      docs := docs + [JoinLines(doclines)];
      blocks := blocks + [doclines];
      doclines := [];
    }
  }

  lemma JoinAllSnoc(blocks: seq<seq<string>>, block: seq<string>)
    ensures JoinAll(blocks + [block]) == JoinAll(blocks) + [JoinLines(block)]
  {
  }

  lemma SeqAssoc<T>(a: seq<T>, b: seq<T>, c: seq<T>)
    ensures a + (b + c) == (a + b) + c
  {
  }

  /** `Idle` and `Recording` one line at a time, as the loop reads them. */
  lemma IdleAt(lines: seq<string>, i: nat)
    requires i < |lines|
    ensures Idle(lines[i..])
            == if IsMarker(lines[i]) then Recording([], lines[i + 1..]) else Idle(lines[i + 1..])
  {
    assert lines[i..][0] == lines[i] && lines[i..][1..] == lines[i + 1..];
  }

  lemma RecordingAt(pending: seq<string>, lines: seq<string>, i: nat)
    requires i < |lines|
    ensures Recording(pending, lines[i..])
            == if Strip(lines[i]) == "" then Recording(pending, lines[i + 1..])
               else if StartsWith(Strip(lines[i]), "#") then Recording(pending + [Remainder(lines[i])], lines[i + 1..])
               else [pending] + Idle(lines[i + 1..])
  {
    assert lines[i..][0] == lines[i] && lines[i..][1..] == lines[i + 1..];
  }

  /** A comment line contributes its stripped text with exactly its first
      `#` removed; whatever follows the `#`, spaces included, is kept. */
  lemma RemainderDropsHash(line: string)
    requires IsComment(line)
    ensures Remainder(line) == Strip(line)[1..]
  {
    StripTrimmed(Strip(line));
    SubFirstPrefix(Strip(line), "#");
  }

  /** Lines that are blank or comments. */
  predicate BlockBody(body: seq<string>) {
    forall k :: 0 <= k < |body| ==> IsBlank(body[k]) || IsComment(body[k])
  }

  /** The content a run of blank and comment lines gives its block: the
      remainders of the comment lines, in source order; blank lines add
      nothing. */
  function Remainders(body: seq<string>): seq<string>
    decreases |body|
  {
    if body == [] then [] else Contribution(body[0]) + Remainders(body[1..])
  }

  /** What one blank or comment line adds to its block. */
  function Contribution(line: string): seq<string> {
    if IsBlank(line) then [] else [Strip(line)[1..]]
  }

  /** One step of recording over a blank or comment line. */
  lemma RecordingStep(pending: seq<string>, lines: seq<string>)
    requires lines != [] && (IsBlank(lines[0]) || IsComment(lines[0]))
    ensures Recording(pending, lines)
            == Recording(pending + Contribution(lines[0]), lines[1..])
  {
    var line := lines[0];
    if IsBlank(line) {
      assert pending + [] == pending;
    } else {
      RemainderDropsHash(line);
    }
  }

  /** While recording, a run of blank and comment lines extends the pending
      block by its remainders. */
  lemma {:induction false} RecordingBody(pending: seq<string>, body: seq<string>, tail: seq<string>)
    requires BlockBody(body)
    ensures Recording(pending, body + tail) == Recording(pending + Remainders(body), tail)
    decreases |body|
  {
    if body == [] {
      assert body + tail == tail;
      assert pending + Remainders(body) == pending;
    } else {
      var first := Contribution(body[0]);
      var later := Remainders(body[1..]);
      RecordingHead(pending, body, tail);
      BlockBodyTail(body);
      RecordingBody(pending + first, body[1..], tail);
      AppendContribution(pending, body);
    }
  }

  lemma RecordingHead(pending: seq<string>, body: seq<string>, tail: seq<string>)
    requires body != [] && (IsBlank(body[0]) || IsComment(body[0]))
    ensures Recording(pending, body + tail) == Recording(pending + Contribution(body[0]), body[1..] + tail)
  {
    var lines := body + tail;
    assert lines[0] == body[0] && lines[1..] == body[1..] + tail;
    RecordingStep(pending, lines);
  }

  lemma BlockBodyTail(body: seq<string>)
    requires body != [] && BlockBody(body)
    ensures BlockBody(body[1..])
  {
    forall k | 0 <= k < |body[1..]| ensures body[1..][k] == body[k + 1] {
    }
  }

  lemma AppendContribution(pending: seq<string>, body: seq<string>)
    requires body != []
    ensures pending + Contribution(body[0]) + Remainders(body[1..]) == pending + Remainders(body)
  {
    var first, later := Contribution(body[0]), Remainders(body[1..]);
    assert Remainders(body) == first + later;
    assert (pending + first) + later == pending + (first + later);
  }

  /** Lines before the first marker contribute nothing. */
  lemma {:induction false} IdleSkips(pre: seq<string>, rest: seq<string>)
    requires forall k :: 0 <= k < |pre| ==> !IsMarker(pre[k])
    ensures Idle(pre + rest) == Idle(rest)
    decreases |pre|
  {
    if pre != [] {
      assert (pre + rest)[0] == pre[0];
      assert (pre + rest)[1..] == pre[1..] + rest;
      IdleSkips(pre[1..], rest);
    } else {
      assert pre + rest == rest;
    }
  }

  /** A marker, then blank and comment lines, then a line that is neither:
      exactly one block, holding the comment remainders (possibly none),
      and scanning resumes after the closing line. */
  lemma ClosedBlock(pre: seq<string>, marker: string, body: seq<string>, close: string, rest: seq<string>)
    requires forall k :: 0 <= k < |pre| ==> !IsMarker(pre[k])
    requires IsMarker(marker) && BlockBody(body)
    requires !IsBlank(close) && !IsComment(close)
    ensures Idle(pre + [marker] + body + [close] + rest) == [Remainders(body)] + Idle(rest)
  {
    var tail := [close] + rest;
    calc {
      Idle(pre + [marker] + body + [close] + rest);
      { assert pre + [marker] + body + [close] + rest == pre + ([marker] + (body + tail)); }
      Idle(pre + ([marker] + (body + tail)));
      { IdleSkips(pre, [marker] + (body + tail)); }
      Idle([marker] + (body + tail));
      { IdleMarker(marker, body + tail); }
      Recording([], body + tail);
      { RecordingBody([], body, tail); assert [] + Remainders(body) == Remainders(body); }
      Recording(Remainders(body), tail);
      { RecordingClose(Remainders(body), close, rest); }
      [Remainders(body)] + Idle(rest);
    }
  }

  lemma IdleMarker(marker: string, tail: seq<string>)
    requires IsMarker(marker)
    ensures Idle([marker] + tail) == Recording([], tail)
  {
    assert ([marker] + tail)[0] == marker && ([marker] + tail)[1..] == tail;
  }

  lemma RecordingClose(pending: seq<string>, close: string, rest: seq<string>)
    requires !IsBlank(close) && !IsComment(close)
    ensures Recording(pending, [close] + rest) == [pending] + Idle(rest)
  {
    assert ([close] + rest)[0] == close && ([close] + rest)[1..] == rest;
  }

  /** A marker, then blank and comment lines up to the end of the input:
      one block if some comment line was seen, otherwise none. */
  lemma OpenBlockAtEnd(pre: seq<string>, marker: string, body: seq<string>)
    requires forall k :: 0 <= k < |pre| ==> !IsMarker(pre[k])
    requires IsMarker(marker) && BlockBody(body)
    ensures Idle(pre + [marker] + body)
            == if Remainders(body) == [] then [] else [Remainders(body)]
  {
    IdleSkips(pre, [marker] + body);
    assert pre + [marker] + body == pre + ([marker] + body);
    IdleMarker(marker, body);
    RecordingBody([], body, []);
    assert body + [] == body;
    assert [] + Remainders(body) == Remainders(body);
  }

  /** A marker followed at once by a line that is neither blank nor a
      comment still closes a block: an empty documentation string. */
  lemma EmptyBlockEmitted(marker: string, close: string)
    requires IsMarker(marker) && !IsBlank(close) && !IsComment(close)
    ensures Documentation([marker, close]) == [""]
  {
    ClosedBlock([], marker, [], close, []);
    assert [] + [marker] + [] + [close] + [] == [marker, close];
    assert Remainders([]) == [];
  }

  /** Without a marker line there is no block. */
  lemma {:induction false} NoMarkerNoBlocks(lines: seq<string>)
    requires forall k :: 0 <= k < |lines| ==> !IsMarker(lines[k])
    ensures Documentation(lines) == []
  {
    IdleSkips(lines, []);
    assert lines + [] == lines;
  }

  /** Once recording, a second `#doc` line is an ordinary comment: it adds
      `doc` to the open block instead of starting a new one. */
  lemma MarkerInsideBlock(pending: seq<string>, line: string, tail: seq<string>)
    requires IsMarker(line)
    ensures Recording(pending, [line] + tail) == Recording(pending + ["doc"], tail)
  {
    assert ([line] + tail)[0] == line && ([line] + tail)[1..] == tail;
    assert IsComment(line);
    RemainderDropsHash(line);
    assert Strip(line)[1..] == "doc";
  }

  /** A line as `File.readlines` yields it: a line feed only at its end. */
  predicate IsReadLine(line: string) {
    forall k :: 0 <= k < |line| - 1 ==> line[k] != '\n'
  }

  /** Stripping a read line removes its line feed. */
  lemma StripReadLine(line: string)
    requires IsReadLine(line)
    ensures NoNewline(Strip(line))
  {
    var r := Strip(line);
    var i := StripCutsSpace(line);
    forall k | 0 <= k < |r| ensures r[k] != '\n' {
      assert r[k] == line[i + k];
      if k < |r| - 1 {
        assert i + k < |line| - 1;
      } else {
        assert !IsSpace(r[k]);
      }
    }
  }

  predicate AllNoNewline(ls: seq<string>) {
    forall k :: 0 <= k < |ls| ==> NoNewline(ls[k])
  }

  lemma {:induction false} RecordingNoNewline(pending: seq<string>, lines: seq<string>)
    requires AllNoNewline(pending)
    requires forall k :: 0 <= k < |lines| ==> IsReadLine(lines[k])
    ensures forall b :: b in Recording(pending, lines) ==> AllNoNewline(b)
    decreases |lines|, 0
  {
    if lines != [] {
      var s := Strip(lines[0]);
      if s == "" {
        RecordingNoNewline(pending, lines[1..]);
      } else if StartsWith(s, "#") {
        StripReadLine(lines[0]);
        RemainderDropsHash(lines[0]);
        RecordingNoNewline(pending + [Remainder(lines[0])], lines[1..]);
      } else {
        IdleNoNewline(lines[1..]);
      }
    }
  }

  lemma {:induction false} IdleNoNewline(lines: seq<string>)
    requires forall k :: 0 <= k < |lines| ==> IsReadLine(lines[k])
    ensures forall b :: b in Idle(lines) ==> AllNoNewline(b)
    decreases |lines|, 1
  {
    if lines != [] {
      if IsMarker(lines[0]) {
        RecordingNoNewline([], lines[1..]);
      } else {
        IdleNoNewline(lines[1..]);
      }
    }
  }

  /** What `subsection` later sees of a block: splitting its joined text at
      line feeds gives back the block's lines, less trailing empty ones. */
  lemma DocumentationSplits(lines: seq<string>, k: nat)
    requires forall j :: 0 <= j < |lines| ==> IsReadLine(lines[j])
    requires k < |Documentation(lines)|
    ensures SplitLines(Documentation(lines)[k]) == DropTrailingEmpty(Idle(lines)[k])
  {
    IdleNoNewline(lines);
    assert Idle(lines)[k] in Idle(lines);
    SplitLinesJoin(Idle(lines)[k]);
  }
}

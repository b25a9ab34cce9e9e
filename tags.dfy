/**
 * Tag lines: the first match of the regular expression `/@\w+/` in a line,
 * and `DocString#tagged_line`, which turns a tag line into a labelled
 * Markdown line.
 */
module Tags {
  import opened Text

  /** Ruby's `\w`: an ASCII letter, digit or underscore. */
  predicate IsWordChar(c: char) {
    ('a' <= c <= 'z') || ('A' <= c <= 'Z') || ('0' <= c <= '9') || c == '_'
  }

  /** `/@\w+/` can start matching at index `i` of `s`. */
  predicate TagAt(s: string, i: nat) {
    i + 1 < |s| && s[i] == '@' && IsWordChar(s[i + 1])
  }

  /** End of the run of word characters that starts at `j`. */
  function WordEnd(s: string, j: nat): (e: nat)
    requires j <= |s|
    ensures j <= e <= |s|
    ensures forall k :: j <= k < e ==> IsWordChar(s[k])
    ensures e == |s| || !IsWordChar(s[e])
    decreases |s| - j
  {
    if j == |s| || !IsWordChar(s[j]) then j else WordEnd(s, j + 1)
  }

  /** The span `s[start..end]` of a regular-expression match. */
  datatype Match = Match(start: nat, end: nat)

  /** `m` is a match of `/@\w+/` in `s`: an `@` at `m.start` followed by the
      longest run of word characters (the `+` is greedy). */
  predicate IsTagMatch(s: string, m: Match) {
    TagAt(s, m.start) && m.end == WordEnd(s, m.start + 1)
  }

  function FindTagFrom(s: string, i: nat): (m: Option<Match>)
    requires i <= |s|
    ensures m.None? ==> forall j: nat :: i <= j ==> !TagAt(s, j)
    ensures m.Some? ==> IsTagMatch(s, m.value) && i <= m.value.start
    ensures m.Some? ==> forall j: nat :: i <= j < m.value.start ==> !TagAt(s, j)
    decreases |s| - i
  {
    if i == |s| then None
    else if TagAt(s, i) then Some(Match(i, WordEnd(s, i + 1)))
    else FindTagFrom(s, i + 1)
  }

  /** `line.match(/@\w+/)`: the leftmost match, or `None` when the line
      holds no `@` followed by a word character. */
  function FindTag(s: string): (m: Option<Match>)
    ensures m.None? ==> forall j: nat :: !TagAt(s, j)
    ensures m.Some? ==> IsTagMatch(s, m.value)
    ensures m.Some? ==> forall j: nat :: j < m.value.start ==> !TagAt(s, j)
  {
    FindTagFrom(s, 0)
  }

  /** The matched text `m[0]`: the `@`, then at least one word character. */
  function TagText(s: string, m: Match): (t: string)
    requires IsTagMatch(s, m)
    ensures |t| >= 2 && t[0] == '@'
    ensures forall k :: 1 <= k < |t| ==> IsWordChar(t[k])
  {
    s[m.start..m.end]
  }

  /** `DocString#tagged_line(line, tag)`: a line break, the tag without its
      `@` capitalised, then ` **rest**` and two line breaks when the line
      minus the tag, stripped, is not empty. */
  function TaggedLine(line: string, tag: string): string {
    var t := Strip(SubFirst(line, tag, ""));
    var head := "\n" + Capitalize(SubFirst(tag, "@", ""));
    if t != "" then head + " **" + Strip(t) + "**\n\n" else head
  }

  /** The first occurrence of the matched tag text in the line is the match
      itself: an earlier copy would be an earlier match. */
  lemma TagOccursFirstAtMatch(line: string, m: Match)
    requires IsTagMatch(line, m)
    requires forall j: nat :: j < m.start ==> !TagAt(line, j)
    ensures SubFirst(line, TagText(line, m), "") == line[..m.start] + line[m.end..]
  {
    var tag := TagText(line, m);
    assert Occurs(line, tag, m.start);
    forall j: nat | j < m.start ensures !Occurs(line, tag, j) {
      if j + |tag| <= |line| {
        assert !TagAt(line, j);
        assert line[j..j + |tag|][0] == line[j];
        assert line[j..j + |tag|][1] == line[j + 1];
      }
    }
    SubFirstLeftmost(line, tag, "", m.start);
  }

  /** What `tagged_line` produces for the tag `/@\w+/` finds: a line break,
      the tag's name (without `@`) capitalised, and, when the rest of the
      line is not blank, that rest, stripped, in bold followed by two line
      breaks. */
  lemma TaggedLineOutput(line: string)
    requires FindTag(line).Some?
    ensures var m := FindTag(line).value;
            var rest := Strip(line[..m.start] + line[m.end..]);
            var name := Capitalize(line[m.start + 1..m.end]);
            TaggedLine(line, TagText(line, m))
            == if rest != "" then "\n" + name + " **" + rest + "**\n\n" else "\n" + name
  {
    var m := FindTag(line).value;
    var tag := TagText(line, m);
    TagOccursFirstAtMatch(line, m);
    SubFirstPrefix(tag, "@");
    assert tag[1..] == line[m.start + 1..m.end];
    var rest := Strip(line[..m.start] + line[m.end..]);
    StripTrimmed(rest);
    TaggedLineParts(line, tag, rest, Capitalize(line[m.start + 1..m.end]));
  }

  lemma TaggedLineParts(line: string, tag: string, rest: string, name: string)
    requires Strip(SubFirst(line, tag, "")) == rest && Strip(rest) == rest
    requires Capitalize(SubFirst(tag, "@", "")) == name
    ensures TaggedLine(line, tag)
            == if rest != "" then "\n" + name + " **" + rest + "**\n\n" else "\n" + name
  {
  }

  /** A tag anywhere in the line makes it a tag line, whatever the line
      starts with. */
  lemma {:induction false} TagAnywhere(pre: string, name: string, post: string)
    requires |name| >= 1 && forall k :: 0 <= k < |name| ==> IsWordChar(name[k])
    ensures FindTag(pre + "@" + name + post).Some?
    ensures FindTag(pre + "@" + name + post).value.start <= |pre|
  {
    var s := pre + "@" + name + post;
    assert s[|pre|] == '@' && s[|pre| + 1] == name[0];
    assert TagAt(s, |pre|);
  }
}

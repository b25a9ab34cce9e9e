/**
 * The Ruby String operations the documentation generator relies on, over
 * `string` (`seq<char>`): `strip`, `start_with?`, `sub` with a string
 * pattern, `split("\n")`, `Array#join("\n")` and `capitalize`.
 */
module Text {

  datatype Option<+T> = None | Some(value: T)

  /** A character Ruby's `String#strip` removes: NUL, tab, line feed,
      vertical tab, form feed, carriage return and space. */
  predicate IsSpace(c: char) {
    c == '\0' || c == '\t' || c == '\n' || c == '\U{0B}' || c == '\U{0C}' || c == '\r' || c == ' '
  }

  predicate AllSpace(s: string) {
    forall i :: 0 <= i < |s| ==> IsSpace(s[i])
  }

  /** No whitespace at either end. */
  predicate Trimmed(s: string) {
    s == [] || (!IsSpace(s[0]) && !IsSpace(s[|s| - 1]))
  }

  /** Length of the whitespace run that starts `s`. */
  function LeadingSpace(s: string): (n: nat)
    ensures n <= |s| && forall i :: 0 <= i < n ==> IsSpace(s[i])
    ensures n == |s| || !IsSpace(s[n])
  {
    if s == [] || !IsSpace(s[0]) then 0
    else
      var m := LeadingSpace(s[1..]);
      assert forall i :: 1 <= i < 1 + m ==> s[i] == s[1..][i - 1];
      1 + m
  }

  /** Length of the whitespace run that ends `s`. */
  function TrailingSpace(s: string): (n: nat)
    ensures n <= |s| && forall i :: |s| - n <= i < |s| ==> IsSpace(s[i])
    ensures n == |s| || !IsSpace(s[|s| - n - 1])
  {
    if s == [] || !IsSpace(s[|s| - 1]) then 0
    else
      var t := s[..|s| - 1];
      var m := TrailingSpace(t);
      assert forall i :: |s| - 1 - m <= i < |s| - 1 ==> s[i] == t[i];
      1 + m
  }

  /** Ruby's `String#strip`: the result has no whitespace left at either
      end (`StripCutsSpace` says what was cut off). */
  function Strip(s: string): (r: string)
    ensures Trimmed(r)
  {
    var a := LeadingSpace(s);
    var t := s[a..];
    t[..|t| - TrailingSpace(t)]
  }

  /** `strip` cuts off exactly a whitespace prefix and a whitespace suffix. */
  lemma StripCutsSpace(s: string) returns (i: nat)
    ensures i + |Strip(s)| <= |s| && s[i..i + |Strip(s)|] == Strip(s)
    ensures AllSpace(s[..i]) && AllSpace(s[i + |Strip(s)|..])
  {
    i := LeadingSpace(s);
    var t := s[i..];
    var b := TrailingSpace(t);
    var r := t[..|t| - b];
    assert s[i..i + |r|] == r;
    assert s[i + |r|..] == t[|t| - b..];
  }

  lemma LeadingSpaceUnique(s: string, k: nat)
    requires k <= |s| && AllSpace(s[..k]) && (k == |s| || !IsSpace(s[k]))
    ensures LeadingSpace(s) == k
  {
    var n := LeadingSpace(s);
    forall i | 0 <= i < k ensures IsSpace(s[i]) { assert s[..k][i] == s[i]; }
    forall i | 0 <= i < n ensures IsSpace(s[i]) { assert s[..n][i] == s[i]; }
  }

  lemma TrailingSpaceUnique(s: string, k: nat)
    requires k <= |s| && AllSpace(s[|s| - k..]) && (k == |s| || !IsSpace(s[|s| - k - 1]))
    ensures TrailingSpace(s) == k
  {
    var n := TrailingSpace(s);
    forall i | |s| - k <= i < |s| ensures IsSpace(s[i]) { assert s[|s| - k..][i - (|s| - k)] == s[i]; }
    forall i | |s| - n <= i < |s| ensures IsSpace(s[i]) { assert s[|s| - n..][i - (|s| - n)] == s[i]; }
  }

  /** The whitespace cut-off is unique: any split of a string into
      whitespace, a trimmed middle and whitespace has `Strip` of it as its
      middle. */
  lemma StripUnique(pre: string, mid: string, post: string)
    requires AllSpace(pre) && AllSpace(post) && Trimmed(mid)
    ensures Strip(pre + mid + post) == mid
  {
    var s := pre + mid + post;
    if mid == [] {
      forall i | 0 <= i < |s| ensures IsSpace(s[i]) {
        if i < |pre| { assert s[i] == pre[i]; } else { assert s[i] == post[i - |pre|]; }
      }
      assert s[..|s|] == s;
      LeadingSpaceUnique(s, |s|);
    } else {
      assert s[..|pre|] == pre;
      assert s[|pre|] == mid[0];
      LeadingSpaceUnique(s, |pre|);
      var t := s[|pre|..];
      assert t == mid + post;
      assert t[|t| - |post|..] == post;
      assert t[|t| - |post| - 1] == mid[|mid| - 1];
      TrailingSpaceUnique(t, |post|);
      assert t[..|t| - |post|] == mid;
    }
  }

  /** `strip` leaves an already trimmed string alone, so it is idempotent. */
  lemma StripTrimmed(s: string)
    requires Trimmed(s)
    ensures Strip(s) == s
  {
    StripUnique([], s, []);
    assert [] + s + [] == s;
  }

  /** Ruby's `start_with?`. */
  predicate StartsWith(s: string, p: string) {
    |p| <= |s| && s[..|p|] == p
  }

  predicate EndsWith(s: string, p: string) {
    |p| <= |s| && s[|s| - |p|..] == p
  }

  /** `pat` occurs in `s` at index `i`. */
  predicate Occurs(s: string, pat: string, i: nat) {
    i + |pat| <= |s| && s[i..i + |pat|] == pat
  }

  /** The first index at or after `i` where `pat` occurs (Ruby's `index`). */
  function FindFrom(s: string, pat: string, i: nat): (r: Option<nat>)
    requires i <= |s|
    ensures r.Some? ==> i <= r.value && Occurs(s, pat, r.value)
    ensures r.Some? ==> forall j: nat :: i <= j < r.value ==> !Occurs(s, pat, j)
    ensures r.None? ==> forall j: nat :: i <= j ==> !Occurs(s, pat, j)
    decreases |s| - i
  {
    if Occurs(s, pat, i) then Some(i)
    else if i == |s| then None
    else FindFrom(s, pat, i + 1)
  }

  /** Ruby's `s.sub(pat, rep)` with a string pattern: the first occurrence
      of `pat` is replaced, and `s` is returned unchanged if there is none. */
  function SubFirst(s: string, pat: string, rep: string): string {
    match FindFrom(s, pat, 0)
    case None => s
    case Some(i) => s[..i] + rep + s[i + |pat|..]
  }

  /** `sub` replaces the leftmost occurrence and nothing else. */
  lemma SubFirstLeftmost(s: string, pat: string, rep: string, i: nat)
    requires Occurs(s, pat, i)
    requires forall j: nat :: j < i ==> !Occurs(s, pat, j)
    ensures SubFirst(s, pat, rep) == s[..i] + rep + s[i + |pat|..]
  {
  }

  /** Removing a prefix pattern with `sub` drops exactly that prefix. */
  lemma SubFirstPrefix(s: string, p: string)
    requires StartsWith(s, p)
    ensures SubFirst(s, p, "") == s[|p|..]
  {
    assert Occurs(s, p, 0);
    SubFirstLeftmost(s, p, "", 0);
  }

  /** Ruby's `Array#join("\n")`. */
  function JoinLines(ls: seq<string>): string
    decreases |ls|
  {
    if |ls| == 0 then ""
    else if |ls| == 1 then ls[0]
    else ls[0] + "\n" + JoinLines(ls[1..])
  }

  /** Every piece of `s` between line feeds, empty ones included. */
  function SplitAll(s: string): (r: seq<string>)
    ensures |r| >= 1
    decreases |s|
  {
    match FindFrom(s, "\n", 0)
    case None => [s]
    case Some(i) => [s[..i]] + SplitAll(s[i + 1..])
  }

  function DropTrailingEmpty(ls: seq<string>): (r: seq<string>)
    ensures r <= ls
    ensures r == [] || r[|r| - 1] != ""
    decreases |ls|
  {
    if ls != [] && ls[|ls| - 1] == "" then DropTrailingEmpty(ls[..|ls| - 1]) else ls
  }

  /** Ruby's `s.split("\n")`: the pieces between line feeds, with trailing
      empty pieces removed (so `""` splits into no lines at all). */
  function SplitLines(s: string): seq<string> {
    DropTrailingEmpty(SplitAll(s))
  }

  predicate NoNewline(s: string) {
    forall i :: 0 <= i < |s| ==> s[i] != '\n'
  }

  /** Joining the pieces of a split gives back the string. */
  lemma {:induction false} JoinSplitAll(s: string)
    ensures JoinLines(SplitAll(s)) == s
    decreases |s|
  {
    match FindFrom(s, "\n", 0)
    case None =>
    case Some(i) =>
      var rest := SplitAll(s[i + 1..]);
      JoinSplitAll(s[i + 1..]);
      assert ([s[..i]] + rest)[1..] == rest;
      assert s[i..i + 1] == "\n";
      assert s == s[..i] + "\n" + s[i + 1..];
  }

  /** Splitting a join of line-feed-free lines gives back the lines. */
  lemma {:induction false} SplitAllJoin(ls: seq<string>)
    requires |ls| >= 1
    requires forall k :: 0 <= k < |ls| ==> NoNewline(ls[k])
    ensures SplitAll(JoinLines(ls)) == ls
    decreases |ls|
  {
    var s := JoinLines(ls);
    if |ls| == 1 {
      forall j: nat | j < |s| ensures !Occurs(s, "\n", j) {
        assert s[j..j + 1] == [s[j]];
      }
    } else {
      var h := ls[0];
      var tail := JoinLines(ls[1..]);
      assert s == h + "\n" + tail;
      assert Occurs(s, "\n", |h|);
      forall j: nat | j < |h| ensures !Occurs(s, "\n", j) {
        assert s[j] == h[j];
        assert s[j..j + 1] == [s[j]];
      }
      SubFirstLeftmost(s, "\n", "", |h|);
      match FindFrom(s, "\n", 0)
      case None =>
      case Some(i) =>
        assert i == |h|;
        assert s[..i] == h;
        assert s[i + 1..] == tail;
        SplitAllJoin(ls[1..]);
        assert [h] + ls[1..] == ls;
    }
  }

  /** `split("\n")` undoes `join("\n")` up to the trailing empty lines that
      `split` drops. */
  lemma SplitLinesJoin(ls: seq<string>)
    requires forall k :: 0 <= k < |ls| ==> NoNewline(ls[k])
    ensures SplitLines(JoinLines(ls)) == DropTrailingEmpty(ls)
  {
    if ls == [] {
      assert SplitAll("") == [""];
      assert DropTrailingEmpty([""]) == DropTrailingEmpty([""][..0]);
      assert [""][..0] == [];
    } else {
      SplitAllJoin(ls);
    }
  }

  /** Strings concatenated with no separator (Ruby's `String#<<` applied
      in turn). */
  function Concat(ls: seq<string>): string
    decreases |ls|
  {
    if ls == [] then "" else Concat(ls[..|ls| - 1]) + ls[|ls| - 1]
  }

  lemma {:induction false} ConcatAppend(a: seq<string>, b: seq<string>)
    ensures Concat(a + b) == Concat(a) + Concat(b)
    decreases |b|
  {
    if b == [] {
      assert a + b == a;
    } else {
      var b', last := b[..|b| - 1], b[|b| - 1];
      assert (a + b)[..|a + b| - 1] == a + b' && (a + b)[|a + b| - 1] == last;
      calc {
        Concat(a + b);
        Concat(a + b') + last;
        { ConcatAppend(a, b'); }
        (Concat(a) + Concat(b')) + last;
        Concat(a) + (Concat(b') + last);
        Concat(a) + Concat(b);
      }
    }
  }

  /** `f` applied to each element, the results concatenated. */
  function ConcatMap<T>(xs: seq<T>, f: T -> string): string {
    Concat(seq(|xs|, i requires 0 <= i < |xs| => f(xs[i])))
  }

  lemma ConcatMapAppend<T>(a: seq<T>, b: seq<T>, f: T -> string)
    ensures ConcatMap(a + b, f) == ConcatMap(a, f) + ConcatMap(b, f)
  {
    var fa := seq(|a|, i requires 0 <= i < |a| => f(a[i]));
    var fb := seq(|b|, i requires 0 <= i < |b| => f(b[i]));
    assert seq(|a + b|, i requires 0 <= i < |a + b| => f((a + b)[i])) == fa + fb;
    ConcatAppend(fa, fb);
  }

  lemma ConcatMapSnoc<T>(xs: seq<T>, x: T, f: T -> string)
    ensures ConcatMap(xs + [x], f) == ConcatMap(xs, f) + f(x)
  {
    var ys := seq(|xs + [x]|, i requires 0 <= i < |xs + [x]| => f((xs + [x])[i]));
    assert ys[..|ys| - 1] == seq(|xs|, i requires 0 <= i < |xs| => f(xs[i]));
    assert ys[|ys| - 1] == f(x);
  }

  lemma ConcatMapPointwise<T>(xs: seq<T>, f: T -> string, ys: seq<string>)
    requires |xs| == |ys| && forall i :: 0 <= i < |xs| ==> f(xs[i]) == ys[i]
    ensures ConcatMap(xs, f) == Concat(ys)
  {
    assert seq(|xs|, i requires 0 <= i < |xs| => f(xs[i])) == ys;
  }

  function UpCase(c: char): char {
    if 'a' <= c <= 'z' then (c as int - 32) as char else c
  }

  function DownCase(c: char): char {
    if 'A' <= c <= 'Z' then (c as int + 32) as char else c
  }

  /** Ruby's `capitalize`: first character upper case, the rest lower case
      (ASCII letters only). */
  function Capitalize(s: string): string {
    if s == [] then []
    else [UpCase(s[0])] + seq(|s| - 1, i requires 0 <= i < |s| - 1 => DownCase(s[i + 1]))
  }
}

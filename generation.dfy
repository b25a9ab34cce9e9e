/**
 * `CDoc`: picks the controller files, groups them by controller name and
 * writes one Markdown document — the title, then for each group a section
 * named after the controller, then a subsection for every documentation
 * block of every file of the group.
 */
module Generation {
  import opened Text
  import opened Subsection
  import opened Extraction
  import opened DocStrings

  const DocTitle := "Chillr API Documentaion"
  const ControllerSuffix := "_controller.rb"

  /** Ruby's `select`: the elements satisfying `keep`, in their order. */
  function Select<T(!new)>(xs: seq<T>, keep: T -> bool): (r: seq<T>)
    ensures |r| <= |xs|
    ensures forall x :: x in r <==> x in xs && keep(x)
    decreases |xs|
  {
    if xs == [] then []
    else
      var init := xs[..|xs| - 1];
      var x := xs[|xs| - 1];
      assert xs == init + [x];
      Select(init, keep) + (if keep(x) then [x] else [])
  }

  /** `select` keeps every copy of a kept element and no other element. */
  lemma {:induction false} SelectCounts<T(!new)>(xs: seq<T>, keep: T -> bool, x: T)
    ensures multiset(Select(xs, keep))[x] == if keep(x) then multiset(xs)[x] else 0
    decreases |xs|
  {
    if xs != [] {
      var init := xs[..|xs| - 1];
      assert xs == init + [xs[|xs| - 1]];
      SelectCounts(init, keep, x);
    }
  }

  lemma {:induction false} SelectNone<T(!new)>(xs: seq<T>, keep: T -> bool)
    requires forall k :: 0 <= k < |xs| ==> !keep(xs[k])
    ensures Select(xs, keep) == []
    decreases |xs|
  {
    if xs != [] {
      SelectNone(xs[..|xs| - 1], keep);
    }
  }

  /** The files `CDoc.new` keeps of those the glob found: the ones whose
      name ends in `_controller.rb`. */
  function ControllerFiles(paths: seq<string>): seq<string> {
    Select(paths, p => EndsWith(p, ControllerSuffix))
  }

  /** A path survives the filter exactly when it ends in `_controller.rb`,
      and then with every copy the glob produced. */
  lemma ControllerFilesKept(paths: seq<string>, p: string)
    ensures p in ControllerFiles(paths) <==> p in paths && EndsWith(p, ControllerSuffix)
    ensures multiset(ControllerFiles(paths))[p]
            == if EndsWith(p, ControllerSuffix) then multiset(paths)[p] else 0
  {
    SelectCounts(paths, q => EndsWith(q, ControllerSuffix), p);
  }

  /** `File.basename(path)` for a path without a trailing `/`: the text
      after the last `/`. */
  function LastComponent(path: string): (r: string)
    ensures |r| <= |path| && path[|path| - |r|..] == r
    ensures forall k :: 0 <= k < |r| ==> r[k] != '/'
    ensures |r| < |path| ==> path[|path| - |r| - 1] == '/'
    decreases |path|
  {
    if path == [] || path[|path| - 1] == '/' then []
    else LastComponent(path[..|path| - 1]) + [path[|path| - 1]]
  }

  /** `File.basename(path, '_controller.rb')`: the last component, with the
      suffix removed when the component ends with it and is longer. */
  function BaseName(path: string): string {
    var name := LastComponent(path);
    if |name| > |ControllerSuffix| && EndsWith(name, ControllerSuffix)
    then name[..|name| - |ControllerSuffix|]
    else name
  }

  predicate NoSlash(s: string) {
    forall k :: 0 <= k < |s| ==> s[k] != '/'
  }

  /** The last component of a path is whatever follows its last `/`. */
  lemma {:induction false} LastComponentAfterSlash(dir: string, name: string)
    requires NoSlash(name)
    ensures LastComponent(dir + "/" + name) == name
    decreases |name|
  {
    var path := dir + "/" + name;
    if name == [] {
      assert path[|path| - 1] == '/';
    } else {
      var init := name[..|name| - 1];
      assert path[..|path| - 1] == dir + "/" + init;
      assert path[|path| - 1] == name[|name| - 1];
      LastComponentAfterSlash(dir, init);
      assert init + [name[|name| - 1]] == name;
    }
  }

  lemma NoSlashAppend(a: string, b: string)
    requires NoSlash(a) && NoSlash(b)
    ensures NoSlash(a + b)
  {
    forall k | 0 <= k < |a + b| ensures (a + b)[k] != '/' {
      if k >= |a| {
        assert (a + b)[k] == b[k - |a|];
      }
    }
  }

  /** A controller file `dir/name_controller.rb` is grouped under `name`. */
  lemma ControllerBaseName(dir: string, name: string)
    requires |name| > 0 && NoSlash(name)
    ensures BaseName(dir + "/" + name + ControllerSuffix) == name
  {
    var suffix := ControllerSuffix;
    var file := name + suffix;
    assert NoSlash(file) by {
      assert NoSlash(suffix);
      NoSlashAppend(name, suffix);
    }
    assert LastComponent(dir + "/" + name + suffix) == file by {
      assert dir + "/" + name + suffix == dir + "/" + file;
      LastComponentAfterSlash(dir, file);
    }
    assert |file| > |suffix| && EndsWith(file, suffix) by {
      assert file[|file| - |suffix|..] == suffix;
    }
    assert file[..|file| - |suffix|] == name;
  }

  /** One entry of the hash `group_by` builds: a key and its files. */
  datatype Group = Group(key: string, members: seq<string>)

  /** `hash[key] << file`, where a missing key is added at the end of the
      hash's insertion order. */
  function Insert(groups: seq<Group>, key: string, file: string): (r: seq<Group>)
    decreases |groups|
  {
    if groups == [] then [Group(key, [file])]
    else if groups[0].key == key then [Group(key, groups[0].members + [file])] + groups[1..]
    else [groups[0]] + Insert(groups[1..], key, file)
  }

  /** `files.group_by { |f| File.basename(f, '_controller.rb') }`, one file
      at a time. */
  function GroupBy(files: seq<string>, keyOf: string -> string): seq<Group>
    decreases |files|
  {
    if files == [] then []
    else
      var file := files[|files| - 1];
      Insert(GroupBy(files[..|files| - 1], keyOf), keyOf(file), file)
  }

  /** The files whose basename is `key`, in list order. */
  function Members(files: seq<string>, keyOf: string -> string, key: string): seq<string> {
    Select(files, f => keyOf(f) == key)
  }

  /** Index of the first file whose basename is `key` (`|files|` if none). */
  function FirstWith(files: seq<string>, keyOf: string -> string, key: string): (r: nat)
    ensures r <= |files|
    ensures forall c :: 0 <= c < r ==> keyOf(files[c]) != key
    ensures r < |files| ==> keyOf(files[r]) == key
    decreases |files|
  {
    if files == [] then 0
    else if keyOf(files[0]) == key then 0
    else 1 + FirstWith(files[1..], keyOf, key)
  }

  predicate HasKey(groups: seq<Group>, key: string) {
    exists i :: 0 <= i < |groups| && groups[i].key == key
  }

  predicate DistinctKeys(groups: seq<Group>) {
    forall i, j :: 0 <= i < j < |groups| ==> groups[i].key != groups[j].key
  }

  /** Every group holds exactly the files with its key, in list order. */
  predicate ExactMembers(files: seq<string>, keyOf: string -> string, groups: seq<Group>) {
    forall i :: 0 <= i < |groups| ==> groups[i].members == Members(files, keyOf, groups[i].key)
  }

  /** Every file's basename is the key of some group. */
  predicate Covers(files: seq<string>, keyOf: string -> string, groups: seq<Group>) {
    forall f :: f in files ==> HasKey(groups, keyOf(f))
  }

  /** Every key belongs to some file, and the keys come in the order their
      first files do. */
  predicate FirstSeenOrder(files: seq<string>, keyOf: string -> string, groups: seq<Group>) {
    var first := FirstPositions(files, keyOf, groups);
    (forall i :: 0 <= i < |first| ==> first[i] < |files|)
    && (forall i, j :: 0 <= i < j < |first| ==> first[i] < first[j])
  }

  /** For each group, the index of the first file with its key. */
  function FirstPositions(files: seq<string>, keyOf: string -> string, groups: seq<Group>): seq<nat> {
    seq(|groups|, i requires 0 <= i < |groups| => FirstWith(files, keyOf, groups[i].key))
  }

  /** What `group_by` promises: no key twice, every group holds exactly the
      files with its key in list order, the keys are exactly the files'
      basenames, and the keys come in the order their first file does. */
  predicate Grouped(files: seq<string>, keyOf: string -> string, groups: seq<Group>) {
    DistinctKeys(groups) && ExactMembers(files, keyOf, groups)
    && Covers(files, keyOf, groups) && FirstSeenOrder(files, keyOf, groups)
  }

  /** A file whose key has a group joins the end of that group. */
  lemma {:induction false} InsertPresent(groups: seq<Group>, key: string, file: string)
    requires DistinctKeys(groups) && HasKey(groups, key)
    ensures |Insert(groups, key, file)| == |groups|
    ensures forall i :: 0 <= i < |groups| ==>
              Insert(groups, key, file)[i]
              == if groups[i].key == key then Group(key, groups[i].members + [file]) else groups[i]
    decreases |groups|
  {
    if groups[0].key == key {
      InsertAtHead(groups, key, file);
    } else {
      var r := Insert(groups, key, file);
      var tail := groups[1..];
      forall i | 1 <= i < |groups| ensures groups[i] == tail[i - 1] {
      }
      var i :| 0 <= i < |groups| && groups[i].key == key;
      assert tail[i - 1].key == key;
      assert DistinctKeys(tail);
      InsertPresent(tail, key, file);
      var rt := Insert(tail, key, file);
      assert r == [groups[0]] + rt;
      forall j | 1 <= j < |r| ensures r[j] == rt[j - 1] {
      }
    }
  }

  lemma InsertAtHead(groups: seq<Group>, key: string, file: string)
    requires DistinctKeys(groups) && groups != [] && groups[0].key == key
    ensures |Insert(groups, key, file)| == |groups|
    ensures Insert(groups, key, file)[0] == Group(key, groups[0].members + [file])
    ensures forall i :: 1 <= i < |groups| ==> Insert(groups, key, file)[i] == groups[i] && groups[i].key != key
  {
    var r := Insert(groups, key, file);
    var tail := groups[1..];
    assert r[1..] == tail;
    forall i | 1 <= i < |groups| ensures r[i] == groups[i] && groups[i].key != key {
      assert r[i] == r[1..][i - 1] && groups[i] == tail[i - 1];
      assert groups[0].key != groups[i].key;
    }
  }

  /** A file with a new key opens a group at the end. */
  lemma {:induction false} InsertAbsent(groups: seq<Group>, key: string, file: string)
    requires !HasKey(groups, key)
    ensures Insert(groups, key, file) == groups + [Group(key, [file])]
    decreases |groups|
  {
    if groups != [] {
      var tail := groups[1..];
      assert groups[0].key != key;
      forall i | 0 <= i < |tail| ensures tail[i].key != key {
        assert tail[i] == groups[i + 1];
      }
      InsertAbsent(tail, key, file);
      assert groups == [groups[0]] + tail;
    }
  }

  lemma MembersSnoc(files: seq<string>, keyOf: string -> string, file: string, key: string)
    ensures Members(files + [file], keyOf, key)
            == Members(files, keyOf, key) + (if keyOf(file) == key then [file] else [])
  {
    assert (files + [file])[..|files + [file]| - 1] == files;
  }

  lemma FirstWithSnoc(files: seq<string>, keyOf: string -> string, file: string, key: string)
    ensures FirstWith(files, keyOf, key) < |files| ==> FirstWith(files + [file], keyOf, key) == FirstWith(files, keyOf, key)
    ensures FirstWith(files, keyOf, key) == |files| ==>
              FirstWith(files + [file], keyOf, key) == if keyOf(file) == key then |files| else |files| + 1
  {
    var all := files + [file];
    var a := FirstWith(files, keyOf, key);
    var b := FirstWith(all, keyOf, key);
    assert forall c :: 0 <= c < |files| ==> all[c] == files[c];
    assert all[|files|] == file;
  }

  lemma HasKeyFirstWith(files: seq<string>, keyOf: string -> string, groups: seq<Group>, key: string)
    requires Grouped(files, keyOf, groups)
    ensures HasKey(groups, key) <==> FirstWith(files, keyOf, key) < |files|
  {
    if FirstWith(files, keyOf, key) < |files| {
      assert files[FirstWith(files, keyOf, key)] in files;
    }
    if HasKey(groups, key) {
      var i :| 0 <= i < |groups| && groups[i].key == key;
      assert FirstPositions(files, keyOf, groups)[i] < |files|;
    }
  }

  lemma MembersNone(files: seq<string>, keyOf: string -> string, key: string)
    requires FirstWith(files, keyOf, key) == |files|
    ensures Members(files, keyOf, key) == []
  {
    SelectNone(files, f => keyOf(f) == key);
  }

  /** A file whose key the groups already have joins that key's group;
      the keys stay as they were. */
  lemma InsertOldKeys(gs: seq<Group>, key: string, file: string)
    requires DistinctKeys(gs) && HasKey(gs, key)
    ensures var r := Insert(gs, key, file);
            |r| == |gs| && DistinctKeys(r)
            && (forall i :: 0 <= i < |r| ==> r[i].key == gs[i].key)
            && (forall i :: 0 <= i < |r| ==>
                  r[i].members == gs[i].members + if gs[i].key == key then [file] else [])
  {
    InsertPresent(gs, key, file);
  }

  lemma InsertOldExact(init: seq<string>, keyOf: string -> string, gs: seq<Group>, file: string)
    requires DistinctKeys(gs) && HasKey(gs, keyOf(file)) && ExactMembers(init, keyOf, gs)
    ensures ExactMembers(init + [file], keyOf, Insert(gs, keyOf(file), file))
  {
    var r := Insert(gs, keyOf(file), file);
    InsertOldKeys(gs, keyOf(file), file);
    forall i | 0 <= i < |r| ensures r[i].members == Members(init + [file], keyOf, r[i].key) {
      MembersSnoc(init, keyOf, file, gs[i].key);
    }
  }

  lemma InsertOldOrder(init: seq<string>, keyOf: string -> string, gs: seq<Group>, file: string)
    requires DistinctKeys(gs) && HasKey(gs, keyOf(file)) && FirstSeenOrder(init, keyOf, gs)
    ensures FirstSeenOrder(init + [file], keyOf, Insert(gs, keyOf(file), file))
  {
    var r := Insert(gs, keyOf(file), file);
    InsertOldKeys(gs, keyOf(file), file);
    var before := FirstPositions(init, keyOf, gs);
    var pos := FirstPositions(init + [file], keyOf, r);
    forall i | 0 <= i < |r|
      ensures pos[i] == before[i]
    {
      FirstWithSnoc(init, keyOf, file, gs[i].key);
    }
    assert pos == before;
  }

  lemma InsertOldCovers(init: seq<string>, keyOf: string -> string, gs: seq<Group>, file: string)
    requires DistinctKeys(gs) && HasKey(gs, keyOf(file)) && Covers(init, keyOf, gs)
    ensures Covers(init + [file], keyOf, Insert(gs, keyOf(file), file))
  {
    var r := Insert(gs, keyOf(file), file);
    InsertOldKeys(gs, keyOf(file), file);
    forall f | f in init + [file] ensures HasKey(r, keyOf(f)) {
      var i :| 0 <= i < |gs| && gs[i].key == keyOf(f);
      assert r[i].key == keyOf(f);
    }
  }

  /** A file with a new key opens a new group at the end. */
  lemma InsertNewExact(init: seq<string>, keyOf: string -> string, gs: seq<Group>, file: string)
    requires !HasKey(gs, keyOf(file)) && ExactMembers(init, keyOf, gs)
    requires FirstWith(init, keyOf, keyOf(file)) == |init|
    ensures ExactMembers(init + [file], keyOf, gs + [Group(keyOf(file), [file])])
  {
    var key := keyOf(file);
    var r := gs + [Group(key, [file])];
    forall i | 0 <= i < |gs| ensures r[i].members == Members(init + [file], keyOf, r[i].key) {
      MembersSnoc(init, keyOf, file, gs[i].key);
    }
    MembersSnoc(init, keyOf, file, key);
    MembersNone(init, keyOf, key);
  }

  lemma InsertNewOrder(init: seq<string>, keyOf: string -> string, gs: seq<Group>, file: string)
    requires FirstSeenOrder(init, keyOf, gs)
    requires FirstWith(init, keyOf, keyOf(file)) == |init|
    ensures FirstSeenOrder(init + [file], keyOf, gs + [Group(keyOf(file), [file])])
  {
    var files := init + [file];
    var r := gs + [Group(keyOf(file), [file])];
    FirstWithSnoc(init, keyOf, file, keyOf(file));
    var before := FirstPositions(init, keyOf, gs);
    var pos := FirstPositions(files, keyOf, r);
    forall i | 0 <= i < |gs|
      ensures pos[i] == before[i]
    {
      assert r[i] == gs[i];
      FirstWithSnoc(init, keyOf, file, gs[i].key);
    }
    assert pos == before + [|init|];
    IncreasingSnoc(before, |init|);
  }

  lemma IncreasingSnoc(p: seq<int>, n: int)
    requires forall i :: 0 <= i < |p| ==> p[i] < n
    requires forall i, j :: 0 <= i < j < |p| ==> p[i] < p[j]
    ensures forall i :: 0 <= i < |p| + 1 ==> (p + [n])[i] <= n
    ensures forall i, j :: 0 <= i < j < |p| + 1 ==> (p + [n])[i] < (p + [n])[j]
  {
  }

  lemma InsertNewCovers(init: seq<string>, keyOf: string -> string, gs: seq<Group>, file: string)
    requires Covers(init, keyOf, gs)
    ensures Covers(init + [file], keyOf, gs + [Group(keyOf(file), [file])])
  {
    var r := gs + [Group(keyOf(file), [file])];
    forall f | f in init + [file] ensures HasKey(r, keyOf(f)) {
      if f in init {
        var i :| 0 <= i < |gs| && gs[i].key == keyOf(f);
        assert r[i].key == keyOf(f);
      } else {
        assert r[|gs|].key == keyOf(f);
      }
    }
  }

  /** Adding one file to the groups of the files before it. */
  lemma GroupedInsert(init: seq<string>, keyOf: string -> string, gs: seq<Group>, file: string)
    requires Grouped(init, keyOf, gs)
    ensures Grouped(init + [file], keyOf, Insert(gs, keyOf(file), file))
  {
    var key := keyOf(file);
    if HasKey(gs, key) {
      InsertOldKeys(gs, key, file);
      InsertOldExact(init, keyOf, gs, file);
      InsertOldOrder(init, keyOf, gs, file);
      InsertOldCovers(init, keyOf, gs, file);
    } else {
      InsertAbsent(gs, key, file);
      HasKeyFirstWith(init, keyOf, gs, key);
      InsertNewExact(init, keyOf, gs, file);
      InsertNewOrder(init, keyOf, gs, file);
      InsertNewCovers(init, keyOf, gs, file);
    }
  }

  /** `group_by` keeps its promise for every file list. */
  lemma {:induction false} GroupByGroups(files: seq<string>, keyOf: string -> string)
    ensures Grouped(files, keyOf, GroupBy(files, keyOf))
    decreases |files|
  {
    if files != [] {
      var init := files[..|files| - 1];
      var file := files[|files| - 1];
      assert files == init + [file];
      GroupByGroups(init, keyOf);
      GroupedInsert(init, keyOf, GroupBy(init, keyOf), file);
    }
  }

  /** Two controllers with the same name, in whatever directories, share
      one group and therefore one section. */
  lemma SameNameOneGroup(files: seq<string>, a: string, b: string)
    requires a in files && b in files && BaseName(a) == BaseName(b)
    ensures exists i :: 0 <= i < |GroupBy(files, BaseName)|
              && GroupBy(files, BaseName)[i].key == BaseName(a)
              && a in GroupBy(files, BaseName)[i].members
              && b in GroupBy(files, BaseName)[i].members
  {
    var groups := GroupBy(files, BaseName);
    GroupByGroups(files, BaseName);
    var i :| 0 <= i < |groups| && groups[i].key == BaseName(a);
    assert groups[i].members == Members(files, BaseName, BaseName(a));
  }

  /** The members of all groups, group after group. */
  function AllMembers(groups: seq<Group>): seq<string>
    decreases |groups|
  {
    if groups == [] then [] else groups[0].members + AllMembers(groups[1..])
  }

  lemma {:induction false} InsertAddsOne(groups: seq<Group>, key: string, file: string)
    ensures multiset(AllMembers(Insert(groups, key, file))) == multiset(AllMembers(groups)) + multiset{file}
    decreases |groups|
  {
    if groups == [] {
      assert AllMembers([Group(key, [file])]) == [file] + AllMembers([]);
    } else if groups[0].key == key {
      var r := Insert(groups, key, file);
      assert r[1..] == groups[1..];
    } else {
      var r := Insert(groups, key, file);
      assert r[1..] == Insert(groups[1..], key, file);
      InsertAddsOne(groups[1..], key, file);
    }
  }

  /** Every file lands in exactly one group: the groups together hold the
      file list, up to order. */
  lemma {:induction false} GroupByPartition(files: seq<string>, keyOf: string -> string)
    ensures multiset(AllMembers(GroupBy(files, keyOf))) == multiset(files)
    decreases |files|
  {
    if files != [] {
      var init := files[..|files| - 1];
      var file := files[|files| - 1];
      assert files == init + [file];
      GroupByPartition(init, keyOf);
      InsertAddsOne(GroupBy(init, keyOf), keyOf(file), file);
    }
  }

  /** What `subsection` appends for each of these documentation
      strings, in order. */
  function Subsections(docs: seq<string>, json: JsonLib): string
    decreases |docs|
  {
    if docs == [] then ""
    else Subsections(docs[..|docs| - 1], json) + SubsectionText(SplitLines(docs[|docs| - 1]), json)
  }

  /** What one file contributes: a subsection per documentation block. */
  function FileText(readLines: string -> seq<string>, json: JsonLib, file: string): string {
    Subsections(Documentation(readLines(file)), json)
  }

  /** What these files contribute, one after the other. */
  function FilesText(readLines: string -> seq<string>, json: JsonLib, files: seq<string>): string
    decreases |files|
  {
    if files == [] then ""
    else FilesText(readLines, json, files[..|files| - 1]) + FileText(readLines, json, files[|files| - 1])
  }

  /** What one group contributes: its section header, then its files. */
  function GroupText(readLines: string -> seq<string>, json: JsonLib, group: Group): string {
    SectionText(Capitalize(group.key)) + FilesText(readLines, json, group.members)
  }

  /** What these groups contribute, one after the other. */
  function GroupsText(readLines: string -> seq<string>, json: JsonLib, groups: seq<Group>): string
    decreases |groups|
  {
    if groups == [] then ""
    else GroupsText(readLines, json, groups[..|groups| - 1]) + GroupText(readLines, json, groups[|groups| - 1])
  }

  /** The whole document `generate` writes for these files. */
  function GenerateText(files: seq<string>, readLines: string -> seq<string>, json: JsonLib): string {
    TitleText(DocTitle) + GroupsText(readLines, json, GroupBy(files, BaseName))
  }

  lemma AppendAssoc(a: string, b: string, c: string)
    ensures a + (b + c) == (a + b) + c
  {
  }

  lemma SubsectionsPrefix(docs: seq<string>, i: nat, json: JsonLib)
    requires i < |docs|
    ensures Subsections(docs[..i + 1], json) == Subsections(docs[..i], json) + SubsectionText(SplitLines(docs[i]), json)
  {
    assert docs[..i + 1][..i] == docs[..i];
  }

  lemma FilesTextPrefix(readLines: string -> seq<string>, json: JsonLib, files: seq<string>, i: nat)
    requires i < |files|
    ensures FilesText(readLines, json, files[..i + 1])
            == FilesText(readLines, json, files[..i]) + FileText(readLines, json, files[i])
  {
    assert files[..i + 1][..i] == files[..i];
  }

  lemma GroupsTextPrefix(readLines: string -> seq<string>, json: JsonLib, groups: seq<Group>, i: nat)
    requires i < |groups|
    ensures GroupsText(readLines, json, groups[..i + 1])
            == GroupsText(readLines, json, groups[..i]) + GroupText(readLines, json, groups[i])
  {
    assert groups[..i + 1][..i] == groups[..i];
  }

  class CDoc {
    /** `@files`: the controller files found under `app/controllers`. */
    var files: seq<string>
    /** `@file_groups`, set by `generate`. */
    var fileGroups: seq<Group>
    /** `@doc`, the Markdown buffer. */
    const doc: DocString

    constructor (globbed: seq<string>)
      ensures files == ControllerFiles(globbed) && fileGroups == []
      ensures fresh(doc) && doc.docstring == "" && doc.title == None
    {
      files := ControllerFiles(globbed);
      fileGroups := [];
      doc := new DocString();
    }

    /** The body of `files.each` in `generate`: a subsection for each
        documentation block of `file`. */
    method AppendFile(file: string, readLines: string -> seq<string>, json: JsonLib)
      modifies doc`docstring
      ensures doc.docstring == old(doc.docstring) + FileText(readLines, json, file)
    {
      ghost var start := doc.docstring;
      var docs := ExtractDocumentation(readLines(file));
      for di := 0 to |docs|
        invariant doc.docstring == start + Subsections(docs[..di], json)
      {
        SubsectionsPrefix(docs, di, json);
        ghost var added := SubsectionText(SplitLines(docs[di]), json);
        doc.Subsection(docs[di], json);
        AppendAssoc(start, Subsections(docs[..di], json), added);
      }
      assert docs[..|docs|] == docs;
    }

    /** The body of `@file_groups.each` in `generate`: the group's section
        header, then each of its files. */
    method AppendGroup(group: Group, readLines: string -> seq<string>, json: JsonLib)
      modifies doc`docstring
      ensures doc.docstring == old(doc.docstring) + GroupText(readLines, json, group)
    {
      ghost var groupStart := doc.docstring;
      doc.Section(Capitalize(group.key));
      ghost var header := groupStart + SectionText(Capitalize(group.key));
      var members := group.members;
      for fi := 0 to |members|
        invariant doc.docstring == header + FilesText(readLines, json, members[..fi])
      {
        FilesTextPrefix(readLines, json, members, fi);
        ghost var added := FileText(readLines, json, members[fi]);
        AppendFile(members[fi], readLines, json);
        AppendAssoc(header, FilesText(readLines, json, members[..fi]), added);
      }
      assert members[..|members|] == members;
      AppendAssoc(groupStart, SectionText(Capitalize(group.key)), FilesText(readLines, json, members));
    }

    /** `generate`, up to the call of `finish`. Reading a file is the
        function `readLines`; JSON handling is `json`. */
    method Generate(readLines: string -> seq<string>, json: JsonLib)
      modifies this`fileGroups, doc
      ensures fileGroups == GroupBy(files, BaseName)
      ensures doc.title == Some(DocTitle)
      ensures doc.docstring == old(doc.docstring) + GenerateText(files, readLines, json)
    {
      ghost var before := doc.docstring;
      doc.Title(DocTitle);
      var groups := GroupBy(files, BaseName);
      fileGroups := groups;
      ghost var start := doc.docstring;

      for gi := 0 to |groups|
        invariant fileGroups == groups
        invariant doc.title == Some(DocTitle)
        invariant doc.docstring == start + GroupsText(readLines, json, groups[..gi])
      {
        GroupsTextPrefix(readLines, json, groups, gi);
        ghost var added := GroupText(readLines, json, groups[gi]);
        AppendGroup(groups[gi], readLines, json);
        AppendAssoc(start, GroupsText(readLines, json, groups[..gi]), added);
      }
      assert groups[..|groups|] == groups;
      AppendAssoc(before, TitleText(DocTitle), GroupsText(readLines, json, groups));
    }
  }
}

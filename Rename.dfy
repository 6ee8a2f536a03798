/** The project-rename script (rename.py): replace the old project name by the
    new one inside files, then in the names of files and directories.

    The file system is a tree value: a directory lists its entries in the
    (arbitrary but fixed) order the directory scan yields them; an entry that
    cannot be listed shows as an empty directory. Paths are the sequences of
    entry names from the root the script walks. Git's ignore rules are an
    arbitrary predicate `ignored` on such paths. */
module Rename {
  import opened Wrappers
  import opened PyStr

  /** What reading a file as UTF-8 gives: its text, or a decoding error (or
      the file vanished), which the script reports and skips. */
  datatype Content = Text(text: string) | Unreadable

  /** A directory entry. `Link` stands for every entry that is neither a
      regular file nor a directory when symbolic links are not followed. */
  datatype Entry =
    | Dir(name: string, children: seq<Entry>)
    | File(name: string, content: Content)
    | Link(name: string)

  type Path = seq<string>

  // ---------------------------------------------------------------------------
  // replace_in_file

  /** What `replace_in_file` returns and what the file holds afterwards. */
  datatype FileEdit = FileEdit(count: nat, content: Content)

  /** `replace_in_file`: an unreadable file, or one without `oldName`, counts 0
      and is not written; otherwise it counts 1, and unless this is a dry run
      its content becomes the text with every occurrence replaced. */
  function ReplaceInFile(c: Content, oldName: string, newName: string, dryRun: bool): (r: FileEdit)
    ensures r.count <= 1
    ensures r.count == 1 <==> c.Text? && Contains(c.text, oldName)
    ensures r.count == 0 || dryRun ==> r.content == c
  {
    if c.Unreadable? then FileEdit(0, c)
    else if !Contains(c.text, oldName) then FileEdit(0, c)
    else if dryRun then FileEdit(1, c)
    else FileEdit(1, Text(Replace(c.text, oldName, newName)))
  }

  /** What a real run writes: the text cut at every occurrence of `oldName`
      (none of the pieces contains it) and glued back with `newName`. */
  lemma ReplaceInFileWrites(c: Content, oldName: string, newName: string)
    requires oldName != [] && c.Text? && Contains(c.text, oldName)
    ensures var pieces := Split(c.text, oldName);
      && ReplaceInFile(c, oldName, newName, false) == FileEdit(1, Text(Join(pieces, newName)))
      && Join(pieces, oldName) == c.text
      && |pieces| >= 2
      && forall k :: 0 <= k < |pieces| ==> !Contains(pieces[k], oldName)
  {
    var pieces := Split(c.text, oldName);
    ReplaceIsJoinOfSplit(c.text, oldName, newName);
    JoinOfSplit(c.text, oldName);
    forall k | 0 <= k < |pieces| ensures !Contains(pieces[k], oldName) {
      PiecesAvoidSeparator(c.text, oldName, k);
    }
  }

  // ---------------------------------------------------------------------------
  // update_project_name

  /** Step I for one entry of the directory at `dir`: what the entry becomes
      and how many files were counted under it. */
  function UpdateEntry(e: Entry, dir: Path, oldName: string, newName: string, dryRun: bool,
                       ignored: Path -> bool): (Entry, nat)
    decreases e, 1
  {
    var full := dir + [e.name];
    if ignored(full) then (e, 0)
    else
      match e
      case Dir(name, children) =>
        var sub := UpdateEntries(children, full, oldName, newName, dryRun, ignored);
        (Dir(name, sub.0), sub.1)
      case File(name, content) =>
        var edit := ReplaceInFile(content, oldName, newName, dryRun);
        (File(name, edit.content), edit.count)
      case Link(_) => (e, 0)
  }

  /** Step I over the entries of the directory at `dir`, in scan order. */
  function UpdateEntries(es: seq<Entry>, dir: Path, oldName: string, newName: string, dryRun: bool,
                         ignored: Path -> bool): (seq<Entry>, nat)
    decreases es, 0
  {
    if es == [] then ([], 0)
    else
      var init := UpdateEntries(es[..|es| - 1], dir, oldName, newName, dryRun, ignored);
      var last := UpdateEntry(es[|es| - 1], dir, oldName, newName, dryRun, ignored);
      (init.0 + [last.0], init.1 + last.1)
  }

  /** Step I on one more entry of a listing. */
  lemma UpdateEntriesSnoc(es: seq<Entry>, i: nat, dir: Path, oldName: string, newName: string, dryRun: bool,
                          ignored: Path -> bool)
    requires i < |es|
    ensures var r := UpdateEntries(es[..i], dir, oldName, newName, dryRun, ignored);
      var e := UpdateEntry(es[i], dir, oldName, newName, dryRun, ignored);
      UpdateEntries(es[..i + 1], dir, oldName, newName, dryRun, ignored) == (r.0 + [e.0], r.1 + e.1)
  {
    assert es[..i + 1][..i] == es[..i];
  }

  /** `update_project_name` on the directory at `dir` whose scan yields `es`:
      the entries afterwards and the number of files counted. */
  method UpdateProjectName(es: seq<Entry>, dir: Path, oldName: string, newName: string, dryRun: bool,
                           ignored: Path -> bool) returns (res: seq<Entry>, count: nat)
    ensures (res, count) == UpdateEntries(es, dir, oldName, newName, dryRun, ignored)
    decreases es, 0
  {
    res, count := [], 0;
    var i := 0;
    while i < |es|
      invariant 0 <= i <= |es|
      invariant (res, count) == UpdateEntries(es[..i], dir, oldName, newName, dryRun, ignored)
    {
      var current, c := UpdateDirectoryEntry(es[i], dir, oldName, newName, dryRun, ignored);
      res, count := res + [current], count + c;
      UpdateEntriesSnoc(es, i, dir, oldName, newName, dryRun, ignored);
      i := i + 1;
    }
    assert es[..i] == es;
  }

  /** One iteration of the loop in `update_project_name`: skip an ignored
      entry, walk into a directory, edit a regular file, leave anything else. */
  method UpdateDirectoryEntry(entry: Entry, dir: Path, oldName: string, newName: string, dryRun: bool,
                              ignored: Path -> bool) returns (current: Entry, count: nat)
    ensures (current, count) == UpdateEntry(entry, dir, oldName, newName, dryRun, ignored)
    decreases entry, 1
  {
    current, count := entry, 0;
    var fullPath := dir + [entry.name];
    if ignored(fullPath) {
      return;
    }
    match entry
    case Dir(name, children) =>
      var sub, c := UpdateProjectName(children, fullPath, oldName, newName, dryRun, ignored);
      current, count := Dir(name, sub), c;
    case File(name, content) =>
      var edit := ReplaceInFile(content, oldName, newName, dryRun);
      current, count := File(name, edit.content), edit.count;
    case Link(_) =>
  }

  // ---------------------------------------------------------------------------
  // Looking entries up by path

  /** The first entry of a directory listing with the given name. */
  function FindName(es: seq<Entry>, name: string): (r: Option<nat>)
    ensures r.Some? ==> r.value < |es| && es[r.value].name == name
    ensures r.Some? ==> forall j :: 0 <= j < r.value ==> es[j].name != name
    ensures r.None? ==> forall j :: 0 <= j < |es| ==> es[j].name != name
  {
    if es == [] then None
    else if es[0].name == name then Some(0)
    else match FindName(es[1..], name)
      case None => None
      case Some(i) => Some(i + 1)
  }

  /** The entry at relative path `p`, going down through directories only. */
  function Lookup(es: seq<Entry>, p: Path): Option<Entry>
    decreases |p|
  {
    if p == [] then None
    else match FindName(es, p[0])
      case None => None
      case Some(i) =>
        if |p| == 1 then Some(es[i])
        else if es[i].Dir? then Lookup(es[i].children, p[1..])
        else None
  }

  /** Two listings with the same names in the same order. */
  predicate SameNames(a: seq<Entry>, b: seq<Entry>) {
    |a| == |b| && forall i :: 0 <= i < |a| ==> a[i].name == b[i].name
  }

  lemma FindNameSameNames(a: seq<Entry>, b: seq<Entry>, name: string)
    requires SameNames(a, b)
    ensures FindName(a, name) == FindName(b, name)
  {
    var ra := FindName(a, name);
    if ra.Some? {
      assert b[ra.value].name == name;
    }
  }

  /** Some prefix of `p` (the entry itself or one of the directories above it,
      below `dir`) is ignored. */
  ghost predicate AnyIgnored(ignored: Path -> bool, dir: Path, p: Path) {
    exists k :: 1 <= k <= |p| && ignored(dir + p[..k])
  }

  lemma AnyIgnoredStep(ignored: Path -> bool, dir: Path, p: Path)
    requires |p| >= 1
    ensures AnyIgnored(ignored, dir, p) <==>
      ignored(dir + [p[0]]) || AnyIgnored(ignored, dir + [p[0]], p[1..])
  {
    assert p[..1] == [p[0]];
    forall k | 1 <= k <= |p| - 1 ensures dir + p[..k + 1] == (dir + [p[0]]) + p[1..][..k] {
      assert p[..k + 1] == [p[0]] + p[1..][..k];
    }
    if AnyIgnored(ignored, dir, p) {
      var k :| 1 <= k <= |p| && ignored(dir + p[..k]);
      if k > 1 {
        assert ignored((dir + [p[0]]) + p[1..][..k - 1]);
      }
    }
    if AnyIgnored(ignored, dir + [p[0]], p[1..]) {
      var k :| 1 <= k <= |p[1..]| && ignored((dir + [p[0]]) + p[1..][..k]);
      assert ignored(dir + p[..k + 1]);
    }
  }

  // ---------------------------------------------------------------------------
  // Properties of step I

  /** Step I maps the listing entry by entry, keeping its length and order. */
  lemma {:induction false} UpdateEntriesAt(es: seq<Entry>, dir: Path, oldName: string, newName: string,
                                           dryRun: bool, ignored: Path -> bool)
    ensures var r := UpdateEntries(es, dir, oldName, newName, dryRun, ignored).0;
      && |r| == |es|
      && forall i :: 0 <= i < |es| ==> r[i] == UpdateEntry(es[i], dir, oldName, newName, dryRun, ignored).0
  {
    if es != [] {
      UpdateEntriesAt(es[..|es| - 1], dir, oldName, newName, dryRun, ignored);
    }
  }

  /** Step I renames nothing: every entry keeps its name (and its kind). */
  lemma UpdateKeepsNames(es: seq<Entry>, dir: Path, oldName: string, newName: string,
                         dryRun: bool, ignored: Path -> bool)
    ensures SameNames(UpdateEntries(es, dir, oldName, newName, dryRun, ignored).0, es)
  {
    UpdateEntriesAt(es, dir, oldName, newName, dryRun, ignored);
  }

  /** After step I, looking up any path finds an entry exactly when it did
      before; an entry under an ignored path is exactly as it was; a file not
      under an ignored path holds what `replace_in_file` left in it; a link
      is untouched. */
  lemma {:induction false} UpdateAtPath(es: seq<Entry>, dir: Path, p: Path, oldName: string, newName: string,
                                        dryRun: bool, ignored: Path -> bool)
    ensures var r := UpdateEntries(es, dir, oldName, newName, dryRun, ignored).0;
      && (Lookup(r, p).Some? <==> Lookup(es, p).Some?)
      && (AnyIgnored(ignored, dir, p) ==> Lookup(r, p) == Lookup(es, p))
      && (Lookup(es, p).Some? && Lookup(es, p).value.Link? ==> Lookup(r, p) == Lookup(es, p))
      && (Lookup(es, p).Some? && Lookup(es, p).value.File? && !AnyIgnored(ignored, dir, p) ==>
            var f := Lookup(es, p).value;
            Lookup(r, p) == Some(File(f.name, ReplaceInFile(f.content, oldName, newName, dryRun).content)))
    decreases |p|
  {
    var r := UpdateEntries(es, dir, oldName, newName, dryRun, ignored).0;
    if p != [] {
      UpdateEntriesAt(es, dir, oldName, newName, dryRun, ignored);
      FindNameSameNames(r, es, p[0]);
      AnyIgnoredStep(ignored, dir, p);
      match FindName(es, p[0])
      case None =>
      case Some(i) =>
        var e := es[i];
        if !ignored(dir + [e.name]) && |p| > 1 && e.Dir? {
          UpdateAtPath(e.children, dir + [p[0]], p[1..], oldName, newName, dryRun, ignored);
        }
    }
  }

  /** A dry run writes nothing, yet counts what a real run counts. */
  lemma {:induction false} UpdateDryRun(es: seq<Entry>, dir: Path, oldName: string, newName: string,
                                        ignored: Path -> bool)
    ensures UpdateEntries(es, dir, oldName, newName, true, ignored) ==
            (es, UpdateEntries(es, dir, oldName, newName, false, ignored).1)
    decreases es, 0
  {
    if es != [] {
      UpdateDryRun(es[..|es| - 1], dir, oldName, newName, ignored);
      UpdateEntryDryRun(es[|es| - 1], dir, oldName, newName, ignored);
      assert es[..|es| - 1] + [es[|es| - 1]] == es;
    }
  }

  lemma {:induction false} UpdateEntryDryRun(e: Entry, dir: Path, oldName: string, newName: string,
                                             ignored: Path -> bool)
    ensures UpdateEntry(e, dir, oldName, newName, true, ignored) ==
            (e, UpdateEntry(e, dir, oldName, newName, false, ignored).1)
    decreases e, 1
  {
    if !ignored(dir + [e.name]) && e.Dir? {
      UpdateDryRun(e.children, dir + [e.name], oldName, newName, ignored);
    }
  }

  /** The full paths of the files step I counts: regular files containing the
      old name, not ignored, reached through directories that are not ignored
      and are not links. */
  function EditedPaths(es: seq<Entry>, dir: Path, oldName: string, ignored: Path -> bool): seq<Path>
    decreases es, 0
  {
    if es == [] then []
    else EditedPaths(es[..|es| - 1], dir, oldName, ignored) + EditedUnder(es[|es| - 1], dir, oldName, ignored)
  }

  function EditedUnder(e: Entry, dir: Path, oldName: string, ignored: Path -> bool): seq<Path>
    decreases e, 1
  {
    var full := dir + [e.name];
    if ignored(full) then []
    else match e
      case Dir(_, children) => EditedPaths(children, full, oldName, ignored)
      case File(_, c) => if c.Text? && Contains(c.text, oldName) then [full] else []
      case Link(_) => []
  }

  /** The count step I returns is the number of those files. */
  lemma {:induction false} UpdateCountIsEdited(es: seq<Entry>, dir: Path, oldName: string, newName: string,
                                               dryRun: bool, ignored: Path -> bool)
    ensures UpdateEntries(es, dir, oldName, newName, dryRun, ignored).1 == |EditedPaths(es, dir, oldName, ignored)|
    decreases es, 0
  {
    if es != [] {
      UpdateCountIsEdited(es[..|es| - 1], dir, oldName, newName, dryRun, ignored);
      UpdateEntryCountIsEdited(es[|es| - 1], dir, oldName, newName, dryRun, ignored);
    }
  }

  lemma {:induction false} UpdateEntryCountIsEdited(e: Entry, dir: Path, oldName: string, newName: string,
                                                    dryRun: bool, ignored: Path -> bool)
    ensures UpdateEntry(e, dir, oldName, newName, dryRun, ignored).1 == |EditedUnder(e, dir, oldName, ignored)|
    decreases e, 1
  {
    if !ignored(dir + [e.name]) && e.Dir? {
      UpdateCountIsEdited(e.children, dir + [e.name], oldName, newName, dryRun, ignored);
    }
  }

  /** Sibling names are distinct, in every directory (true of any real file system). */
  ghost predicate UniqueNames(es: seq<Entry>)
    decreases es
  {
    && (forall i, j :: 0 <= i < j < |es| ==> es[i].name != es[j].name)
    && (forall i :: 0 <= i < |es| ==> es[i].Dir? ==> UniqueNames(es[i].children))
  }

  predicate NoDuplicates<T(==)>(s: seq<T>) {
    forall i, j :: 0 <= i < j < |s| ==> s[i] != s[j]
  }

  /** A file step I edits (or, in a dry run, would edit). */
  ghost predicate Editable(es: seq<Entry>, dir: Path, q: Path, oldName: string, ignored: Path -> bool) {
    && !AnyIgnored(ignored, dir, q)
    && Lookup(es, q).Some?
    && Lookup(es, q).value.File?
    && Lookup(es, q).value.content.Text?
    && Contains(Lookup(es, q).value.content.text, oldName)
  }

  lemma {:induction false} EditedPathsMember(es: seq<Entry>, dir: Path, oldName: string, ignored: Path -> bool, x: Path)
    ensures x in EditedPaths(es, dir, oldName, ignored) <==>
      exists i :: 0 <= i < |es| && x in EditedUnder(es[i], dir, oldName, ignored)
  {
    if es != [] {
      var init := es[..|es| - 1];
      var last := es[|es| - 1];
      assert EditedPaths(es, dir, oldName, ignored) ==
        EditedPaths(init, dir, oldName, ignored) + EditedUnder(last, dir, oldName, ignored);
      EditedPathsMember(init, dir, oldName, ignored, x);
      if exists i :: 0 <= i < |init| && x in EditedUnder(init[i], dir, oldName, ignored) {
        var i :| 0 <= i < |init| && x in EditedUnder(init[i], dir, oldName, ignored);
        assert es[i] == init[i];
      }
      if exists i :: 0 <= i < |es| && x in EditedUnder(es[i], dir, oldName, ignored) {
        var i :| 0 <= i < |es| && x in EditedUnder(es[i], dir, oldName, ignored);
        if i < |init| {
          assert init[i] == es[i];
        }
      }
    }
  }

  /** Every path step I edits under an entry lies below that entry. */
  lemma {:induction false} EditedUnderPrefix(e: Entry, dir: Path, oldName: string, ignored: Path -> bool, x: Path)
    requires x in EditedUnder(e, dir, oldName, ignored)
    ensures |x| > |dir| && x[..|dir| + 1] == dir + [e.name]
    decreases e
  {
    var full := dir + [e.name];
    if e.Dir? {
      EditedPathsMember(e.children, full, oldName, ignored, x);
      var i :| 0 <= i < |e.children| && x in EditedUnder(e.children[i], full, oldName, ignored);
      EditedUnderPrefix(e.children[i], full, oldName, ignored, x);
      assert x[..|dir| + 1] == x[..|full| + 1][..|dir| + 1];
    }
  }

  /** With distinct sibling names, the paths step I edits are exactly the
      editable files, each listed once. */
  lemma {:induction false} EditedPathsExact(es: seq<Entry>, dir: Path, q: Path, oldName: string, ignored: Path -> bool)
    requires UniqueNames(es)
    ensures dir + q in EditedPaths(es, dir, oldName, ignored) <==> Editable(es, dir, q, oldName, ignored)
    decreases |q|
  {
    EditedPathsMember(es, dir, oldName, ignored, dir + q);
    if q != [] {
      AnyIgnoredStep(ignored, dir, q);
      var full := dir + [q[0]];
      assert dir + q == full + q[1..];
      if dir + q in EditedPaths(es, dir, oldName, ignored) {
        var i :| 0 <= i < |es| && dir + q in EditedUnder(es[i], dir, oldName, ignored);
        EditedUnderPrefix(es[i], dir, oldName, ignored, dir + q);
        assert (dir + q)[..|dir| + 1] == full;
        assert es[i].name == (dir + [es[i].name])[|dir|] == full[|dir|] == q[0];
        assert FindName(es, q[0]) == Some(i);
        assert !ignored(full);
        if es[i].File? {
          assert |q| == 1;
          assert !AnyIgnored(ignored, full, q[1..]);
        }
        if es[i].Dir? {
          var ch := es[i].children;
          EditedPathsMember(ch, full, oldName, ignored, dir + q);
          var j :| 0 <= j < |ch| && dir + q in EditedUnder(ch[j], full, oldName, ignored);
          EditedUnderPrefix(ch[j], full, oldName, ignored, dir + q);
          EditedPathsExact(ch, full, q[1..], oldName, ignored);
        }
      }
      if Editable(es, dir, q, oldName, ignored) {
        var i := FindName(es, q[0]).value;
        assert !ignored(full);
        if |q| > 1 {
          EditedPathsExact(es[i].children, full, q[1..], oldName, ignored);
          assert EditedUnder(es[i], dir, oldName, ignored) == EditedPaths(es[i].children, full, oldName, ignored);
        } else {
          assert q == [q[0]];
          assert EditedUnder(es[i], dir, oldName, ignored) == [full];
        }
        assert dir + q in EditedUnder(es[i], dir, oldName, ignored);
      }
    } else if dir + q in EditedPaths(es, dir, oldName, ignored) {
      var i :| 0 <= i < |es| && dir + q in EditedUnder(es[i], dir, oldName, ignored);
      EditedUnderPrefix(es[i], dir, oldName, ignored, dir + q);
    }
  }

  /** With distinct sibling names, no file is counted twice. */
  lemma {:induction false} EditedPathsNoDuplicates(es: seq<Entry>, dir: Path, oldName: string, ignored: Path -> bool)
    requires UniqueNames(es)
    ensures NoDuplicates(EditedPaths(es, dir, oldName, ignored))
    decreases es, 0
  {
    if es != [] {
      var init := es[..|es| - 1];
      var last := es[|es| - 1];
      assert UniqueNames(init) by {
        forall i | 0 <= i < |init| ensures init[i] == es[i] { }
      }
      EditedPathsNoDuplicates(init, dir, oldName, ignored);
      EditedUnderNoDuplicates(last, dir, oldName, ignored);
      var a := EditedPaths(init, dir, oldName, ignored);
      var b := EditedUnder(last, dir, oldName, ignored);
      forall i, j | 0 <= i < |a| && 0 <= j < |b| ensures a[i] != b[j] {
        EditedPathsMember(init, dir, oldName, ignored, a[i]);
        var k :| 0 <= k < |init| && a[i] in EditedUnder(init[k], dir, oldName, ignored);
        EditedUnderPrefix(init[k], dir, oldName, ignored, a[i]);
        EditedUnderPrefix(last, dir, oldName, ignored, b[j]);
        assert a[i][|dir|] == (dir + [init[k].name])[|dir|] == init[k].name;
        assert b[j][|dir|] == (dir + [last.name])[|dir|] == last.name;
        assert init[k] == es[k];
      }
    }
  }

  lemma {:induction false} EditedUnderNoDuplicates(e: Entry, dir: Path, oldName: string, ignored: Path -> bool)
    requires e.Dir? ==> UniqueNames(e.children)
    ensures NoDuplicates(EditedUnder(e, dir, oldName, ignored))
    decreases e, 1
  {
    if e.Dir? {
      EditedPathsNoDuplicates(e.children, dir + [e.name], oldName, ignored);
    }
  }

  /** Step I's total is the number of distinct editable files. */
  lemma UpdateCountExact(es: seq<Entry>, dir: Path, oldName: string, newName: string,
                         dryRun: bool, ignored: Path -> bool)
    requires UniqueNames(es)
    ensures var paths := EditedPaths(es, dir, oldName, ignored);
      && UpdateEntries(es, dir, oldName, newName, dryRun, ignored).1 == |paths|
      && NoDuplicates(paths)
      && forall q :: dir + q in paths <==> Editable(es, dir, q, oldName, ignored)
  {
    UpdateCountIsEdited(es, dir, oldName, newName, dryRun, ignored);
    EditedPathsNoDuplicates(es, dir, oldName, ignored);
    forall q ensures dir + q in EditedPaths(es, dir, oldName, ignored) <==> Editable(es, dir, q, oldName, ignored) {
      EditedPathsExact(es, dir, q, oldName, ignored);
    }
  }

  // ---------------------------------------------------------------------------
  // rename_directories_and_files

  /** One rename the script performs (or, in a dry run, reports): the entry at
      `from` gets the name `newName`; `kind` is the label `_filetype` gives. */
  datatype RenameOp = RenameOp(from: Path, newName: string, kind: string)

  /** `_filetype`: regular files and directories are labelled, anything else
      (symbolic links included, since links are not followed) is not. */
  function FileType(e: Entry): (key: string)
    ensures key == " filepath" <==> e.File?
    ensures key == " directory" <==> e.Dir?
    ensures key == "" <==> e.Link?
  {
    match e
    case File(_, _) => " filepath"
    case Dir(_, _) => " directory"
    case Link(_) => ""
  }

  /** The same entry under another name. */
  function WithName(e: Entry, name: string): Entry {
    match e
    case Dir(_, children) => Dir(name, children)
    case File(_, content) => File(name, content)
    case Link(_) => Link(name)
  }

  /** Whether step II renames the entry `e` of the directory at `dir`. */
  ghost predicate IsRenamed(e: Entry, dir: Path, oldName: string, ignored: Path -> bool) {
    !ignored(dir + [e.name]) && Contains(e.name, oldName)
  }

  /** The name `e` has once step II is over. */
  ghost function FinalName(e: Entry, dir: Path, oldName: string, newName: string, ignored: Path -> bool): string {
    if IsRenamed(e, dir, oldName, ignored) then Replace(e.name, oldName, newName) else e.name
  }

  /** Step II for one entry of the directory at `dir`: the entry afterwards
      (as a real run leaves it) and the renames, in the order they happen.
      A directory's contents are handled before the directory itself. */
  function RenameEntry(e: Entry, dir: Path, oldName: string, newName: string,
                       ignored: Path -> bool): (Entry, seq<RenameOp>)
    decreases e, 1
  {
    var full := dir + [e.name];
    if ignored(full) then (e, [])
    else
      var sub := if e.Dir? then RenameEntries(e.children, full, oldName, newName, ignored) else ([], []);
      var walked := if e.Dir? then Dir(e.name, sub.0) else e;
      if !Contains(e.name, oldName) then (walked, sub.1)
      else
        var target := Replace(e.name, oldName, newName);
        (WithName(walked, target), sub.1 + [RenameOp(full, target, FileType(e))])
  }

  /** Step II over the entries of the directory at `dir`, in scan order. */
  function RenameEntries(es: seq<Entry>, dir: Path, oldName: string, newName: string,
                         ignored: Path -> bool): (seq<Entry>, seq<RenameOp>)
    decreases es, 0
  {
    if es == [] then ([], [])
    else
      var init := RenameEntries(es[..|es| - 1], dir, oldName, newName, ignored);
      var last := RenameEntry(es[|es| - 1], dir, oldName, newName, ignored);
      (init.0 + [last.0], init.1 + last.1)
  }

  /** Step II on one more entry of a listing. */
  lemma RenameEntriesSnoc(es: seq<Entry>, i: nat, dir: Path, oldName: string, newName: string,
                          ignored: Path -> bool)
    requires i < |es|
    ensures var r := RenameEntries(es[..i], dir, oldName, newName, ignored);
      var e := RenameEntry(es[i], dir, oldName, newName, ignored);
      RenameEntries(es[..i + 1], dir, oldName, newName, ignored) == (r.0 + [e.0], r.1 + e.1)
      && es[..i + 1] == es[..i] + [es[i]]
  {
    assert es[..i + 1][..i] == es[..i];
  }

  /** `rename_directories_and_files` on the directory at `dir` whose scan
      yields `es`: the entries afterwards, the renames performed (a dry run
      only reports them), and the count returned, one per rename. */
  method RenameDirectoriesAndFiles(es: seq<Entry>, dir: Path, oldName: string, newName: string,
                                   dryRun: bool, ignored: Path -> bool)
    returns (res: seq<Entry>, log: seq<RenameOp>, count: nat)
    ensures log == RenameEntries(es, dir, oldName, newName, ignored).1
    ensures count == |log|
    ensures res == if dryRun then es else RenameEntries(es, dir, oldName, newName, ignored).0
    decreases es, 0
  {
    res, log, count := [], [], 0;
    var i := 0;
    while i < |es|
      invariant 0 <= i <= |es|
      invariant log == RenameEntries(es[..i], dir, oldName, newName, ignored).1
      invariant count == |log|
      invariant res == if dryRun then es[..i] else RenameEntries(es[..i], dir, oldName, newName, ignored).0
    {
      var current, entryLog, c := RenameDirectoryEntry(es[i], dir, oldName, newName, dryRun, ignored);
      res, log, count := res + [current], log + entryLog, count + c;
      RenameEntriesSnoc(es, i, dir, oldName, newName, ignored);
      i := i + 1;
    }
    assert es[..i] == es;
  }

  /** One iteration of the loop in `rename_directories_and_files`: skip an
      ignored entry; walk into a directory first; then rename the entry if
      its name contains the old name. */
  method RenameDirectoryEntry(entry: Entry, dir: Path, oldName: string, newName: string,
                              dryRun: bool, ignored: Path -> bool)
    returns (current: Entry, log: seq<RenameOp>, count: nat)
    ensures log == RenameEntry(entry, dir, oldName, newName, ignored).1
    ensures count == |log|
    ensures current == if dryRun then entry else RenameEntry(entry, dir, oldName, newName, ignored).0
    decreases entry, 1
  {
    current, log, count := entry, [], 0;
    var fullPath := dir + [entry.name];
    if ignored(fullPath) {
      return;
    }
    if entry.Dir? {
      var sub, subLog, c := RenameDirectoriesAndFiles(entry.children, fullPath, oldName, newName, dryRun, ignored);
      current := Dir(entry.name, sub);
      log, count := log + subLog, count + c;
    }
    if !Contains(entry.name, oldName) {
      return;
    }
    var target := Replace(entry.name, oldName, newName);
    log, count := log + [RenameOp(fullPath, target, FileType(entry))], count + 1;
    if !dryRun {
      current := WithName(current, target);
    }
  }

  // ---------------------------------------------------------------------------
  // Properties of step II

  /** Step II maps the listing entry by entry, and its renames are those made
      under each entry. */
  lemma {:induction false} RenameEntriesAt(es: seq<Entry>, dir: Path, oldName: string, newName: string,
                                           ignored: Path -> bool)
    ensures var r := RenameEntries(es, dir, oldName, newName, ignored);
      && |r.0| == |es|
      && (forall i :: 0 <= i < |es| ==> r.0[i] == RenameEntry(es[i], dir, oldName, newName, ignored).0)
      && (forall op :: op in r.1 <==>
            exists i :: 0 <= i < |es| && op in RenameEntry(es[i], dir, oldName, newName, ignored).1)
  {
    if es != [] {
      var init := es[..|es| - 1];
      RenameEntriesAt(init, dir, oldName, newName, ignored);
      assert forall i :: 0 <= i < |init| ==> init[i] == es[i];
    }
  }

  /** What step II makes of one entry: it ends up with its final name; an
      ignored entry is untouched and nothing under it is renamed; every
      rename lies at or below the entry, and the entry's own rename, when it
      has one, is the last of them. */
  lemma {:induction false} RenameEntryShape(e: Entry, dir: Path, oldName: string, newName: string,
                                            ignored: Path -> bool)
    ensures var res := RenameEntry(e, dir, oldName, newName, ignored);
      var log := res.1;
      && res.0.name == FinalName(e, dir, oldName, newName, ignored)
      && (ignored(dir + [e.name]) ==> res.0 == e && log == [])
      && (forall k :: 0 <= k < |log| ==> |log[k].from| > |dir| && log[k].from[..|dir| + 1] == dir + [e.name])
      && (forall k :: 0 <= k < |log| ==>
            (|log[k].from| == |dir| + 1 <==> k == |log| - 1 && IsRenamed(e, dir, oldName, ignored)))
      && (IsRenamed(e, dir, oldName, ignored) ==>
            |log| > 0 && log[|log| - 1] == RenameOp(dir + [e.name], Replace(e.name, oldName, newName), FileType(e)))
    decreases e, 1
  {
    var full := dir + [e.name];
    if !ignored(full) && e.Dir? {
      var sub := RenameEntries(e.children, full, oldName, newName, ignored);
      RenameEntriesAt(e.children, full, oldName, newName, ignored);
      forall k | 0 <= k < |sub.1| ensures |sub.1[k].from| > |full| && sub.1[k].from[..|dir| + 1] == full {
        assert sub.1[k] in sub.1;
        var i :| 0 <= i < |e.children| && sub.1[k] in RenameEntry(e.children[i], full, oldName, newName, ignored).1;
        RenameEntryShape(e.children[i], full, oldName, newName, ignored);
        var log := RenameEntry(e.children[i], full, oldName, newName, ignored).1;
        var j :| 0 <= j < |log| && log[j] == sub.1[k];
        assert sub.1[k].from[..|dir| + 1] == sub.1[k].from[..|full| + 1][..|dir| + 1];
      }
    }
  }

  /** No rename in `log` comes before a rename of something inside it. */
  predicate PostOrdered(log: seq<RenameOp>) {
    forall a, b :: 0 <= a < b < |log| ==> !(log[a].from < log[b].from)
  }

  /** No rename in `l1` is of something that contains a rename in `l2`. */
  predicate NotAbove(l1: seq<RenameOp>, l2: seq<RenameOp>) {
    forall a, b :: 0 <= a < |l1| && 0 <= b < |l2| ==> !(l1[a].from < l2[b].from)
  }

  lemma PostOrderedConcat(l1: seq<RenameOp>, l2: seq<RenameOp>)
    requires PostOrdered(l1) && PostOrdered(l2) && NotAbove(l1, l2)
    ensures PostOrdered(l1 + l2)
  {
    var log := l1 + l2;
    forall a, b | 0 <= a < b < |log| ensures !(log[a].from < log[b].from) {
      if b < |l1| {
        assert log[a] == l1[a] && log[b] == l1[b];
      } else if a >= |l1| {
        assert log[a] == l2[a - |l1|] && log[b] == l2[b - |l1|];
      } else {
        assert log[a] == l1[a] && log[b] == l2[b - |l1|];
      }
    }
  }

  /** Renames made under two differently named siblings are never nested. */
  lemma SiblingRenamesApart(es: seq<Entry>, dir: Path, oldName: string, newName: string,
                            ignored: Path -> bool, e: Entry)
    requires UniqueNames(es + [e])
    ensures NotAbove(RenameEntries(es, dir, oldName, newName, ignored).1,
                     RenameEntry(e, dir, oldName, newName, ignored).1)
  {
    var l1 := RenameEntries(es, dir, oldName, newName, ignored).1;
    var l2 := RenameEntry(e, dir, oldName, newName, ignored).1;
    RenameEntriesAt(es, dir, oldName, newName, ignored);
    RenameEntryShape(e, dir, oldName, newName, ignored);
    forall a, b | 0 <= a < |l1| && 0 <= b < |l2| ensures !(l1[a].from < l2[b].from) {
      assert l1[a] in l1;
      var k :| 0 <= k < |es| && l1[a] in RenameEntry(es[k], dir, oldName, newName, ignored).1;
      RenameEntryShape(es[k], dir, oldName, newName, ignored);
      var x, y := l1[a].from, l2[b].from;
      assert (es + [e])[k] == es[k] && (es + [e])[|es|] == e;
      assert x[|dir|] == x[..|dir| + 1][|dir|] == es[k].name;
      assert y[|dir|] == y[..|dir| + 1][|dir|] == e.name;
    }
  }

  /** Post-order: with distinct sibling names, no rename of an entry comes
      before a rename of something inside it. */
  lemma {:induction false} RenamePostOrder(es: seq<Entry>, dir: Path, oldName: string, newName: string,
                                           ignored: Path -> bool)
    requires UniqueNames(es)
    ensures PostOrdered(RenameEntries(es, dir, oldName, newName, ignored).1)
    decreases es, 0
  {
    if es != [] {
      var init := es[..|es| - 1];
      var last := es[|es| - 1];
      assert forall i :: 0 <= i < |init| ==> init[i] == es[i];
      assert UniqueNames(init);
      RenamePostOrder(init, dir, oldName, newName, ignored);
      RenameEntryPostOrder(last, dir, oldName, newName, ignored);
      assert init + [last] == es;
      SiblingRenamesApart(init, dir, oldName, newName, ignored, last);
      PostOrderedConcat(RenameEntries(init, dir, oldName, newName, ignored).1,
                        RenameEntry(last, dir, oldName, newName, ignored).1);
    }
  }

  lemma {:induction false} RenameEntryPostOrder(e: Entry, dir: Path, oldName: string, newName: string,
                                                ignored: Path -> bool)
    requires e.Dir? ==> UniqueNames(e.children)
    ensures PostOrdered(RenameEntry(e, dir, oldName, newName, ignored).1)
    decreases e, 1
  {
    var full := dir + [e.name];
    if !ignored(full) && e.Dir? {
      RenamePostOrder(e.children, full, oldName, newName, ignored);
      RenameEntryShape(e, dir, oldName, newName, ignored);
      var sub := RenameEntries(e.children, full, oldName, newName, ignored).1;
      var log := RenameEntry(e, dir, oldName, newName, ignored).1;
      assert log[..|sub|] == sub;
      forall a, b | 0 <= a < b < |log| ensures !(log[a].from < log[b].from) {
        if b < |sub| {
          assert log[a] == sub[a] && log[b] == sub[b];
        } else {
          assert |log[a].from| > |dir| + 1 == |log[b].from|;
        }
      }
    }
  }

  /** The entry at relative path `q` is one step II renames: it exists, no
      path from `dir` down to it is ignored, and its name contains the old name. */
  ghost predicate Renamable(es: seq<Entry>, dir: Path, q: Path, oldName: string, ignored: Path -> bool) {
    && q != []
    && !AnyIgnored(ignored, dir, q)
    && Lookup(es, q).Some?
    && Contains(q[|q| - 1], oldName)
  }

  /** The rename of the entry at relative path `q`: same parent, every
      occurrence of the old name in its own name replaced. */
  ghost function OpFor(es: seq<Entry>, dir: Path, q: Path, oldName: string, newName: string): RenameOp
    requires q != [] && Lookup(es, q).Some?
  {
    RenameOp(dir + q, Replace(q[|q| - 1], oldName, newName), FileType(Lookup(es, q).value))
  }

  /** A rename made under the `i`-th entry of a listing lies below that entry. */
  lemma RenameUnder(es: seq<Entry>, dir: Path, oldName: string, newName: string, ignored: Path -> bool, op: RenameOp)
    requires op in RenameEntries(es, dir, oldName, newName, ignored).1
    ensures exists i :: 0 <= i < |es| && op in RenameEntry(es[i], dir, oldName, newName, ignored).1
    ensures |op.from| > |dir| && op.from[..|dir|] == dir
  {
    RenameEntriesAt(es, dir, oldName, newName, ignored);
    var i :| 0 <= i < |es| && op in RenameEntry(es[i], dir, oldName, newName, ignored).1;
    RenameEntryShape(es[i], dir, oldName, newName, ignored);
    var l := RenameEntry(es[i], dir, oldName, newName, ignored).1;
    var k :| 0 <= k < |l| && l[k] == op;
    assert op.from[..|dir|] == op.from[..|dir| + 1][..|dir|];
  }

  /** Each rename in the log of an entry is either the entry's own rename or
      one made inside it. */
  lemma RenameEntryLogParts(e: Entry, dir: Path, oldName: string, newName: string, ignored: Path -> bool,
                            op: RenameOp)
    requires op in RenameEntry(e, dir, oldName, newName, ignored).1
    ensures !ignored(dir + [e.name]) && |op.from| > |dir| && op.from[..|dir| + 1] == dir + [e.name]
    ensures |op.from| == |dir| + 1 ==>
      IsRenamed(e, dir, oldName, ignored) && op == RenameOp(dir + [e.name], Replace(e.name, oldName, newName), FileType(e))
    ensures |op.from| > |dir| + 1 ==>
      e.Dir? && op in RenameEntries(e.children, dir + [e.name], oldName, newName, ignored).1
  {
    RenameEntryShape(e, dir, oldName, newName, ignored);
    var l := RenameEntry(e, dir, oldName, newName, ignored).1;
    var k :| 0 <= k < |l| && l[k] == op;
    if |op.from| > |dir| + 1 {
      var sub := RenameEntries(e.children, dir + [e.name], oldName, newName, ignored).1;
      assert e.Dir? && l[..|sub|] == sub;
      assert k < |sub| && op == sub[k];
    }
  }

  /** With distinct sibling names, an entry is found by its own name, and
      its contents again have distinct names. */
  lemma UniqueFind(es: seq<Entry>, i: nat)
    requires UniqueNames(es) && i < |es|
    ensures FindName(es, es[i].name) == Some(i)
    ensures es[i].Dir? ==> UniqueNames(es[i].children)
  {
  }

  /** The renames made under one entry are among those of its listing. */
  lemma RenameEntriesHas(es: seq<Entry>, i: nat, dir: Path, oldName: string, newName: string,
                         ignored: Path -> bool, op: RenameOp)
    requires i < |es| && op in RenameEntry(es[i], dir, oldName, newName, ignored).1
    ensures op in RenameEntries(es, dir, oldName, newName, ignored).1
  {
    RenameEntriesAt(es, dir, oldName, newName, ignored);
  }

  /** A renamed entry's log holds its own rename and every rename inside it. */
  lemma RenameEntryHas(e: Entry, dir: Path, oldName: string, newName: string, ignored: Path -> bool)
    ensures IsRenamed(e, dir, oldName, ignored) ==>
      RenameOp(dir + [e.name], Replace(e.name, oldName, newName), FileType(e))
        in RenameEntry(e, dir, oldName, newName, ignored).1
    ensures e.Dir? && !ignored(dir + [e.name]) ==>
      forall op :: op in RenameEntries(e.children, dir + [e.name], oldName, newName, ignored).1 ==>
        op in RenameEntry(e, dir, oldName, newName, ignored).1
  {
  }

  /** Renamability one level down: below a directory that is not ignored,
      an entry is renamable in the parent's listing exactly when it is in the
      directory's own listing, and renamed the same way. */
  lemma RenamableStep(es: seq<Entry>, dir: Path, q: Path, i: nat, oldName: string, newName: string,
                      ignored: Path -> bool)
    requires |q| > 1 && FindName(es, q[0]) == Some(i) && es[i].Dir? && !ignored(dir + [q[0]])
    ensures Renamable(es, dir, q, oldName, ignored) <==>
            Renamable(es[i].children, dir + [q[0]], q[1..], oldName, ignored)
    ensures Renamable(es, dir, q, oldName, ignored) ==>
            OpFor(es, dir, q, oldName, newName) == OpFor(es[i].children, dir + [q[0]], q[1..], oldName, newName)
  {
    AnyIgnoredStep(ignored, dir, q);
    assert dir + q == (dir + [q[0]]) + q[1..];
  }

  /** Renamability at the top level of a listing. */
  lemma RenamableHere(es: seq<Entry>, dir: Path, name: string, i: nat, oldName: string, newName: string,
                      ignored: Path -> bool)
    requires FindName(es, name) == Some(i)
    ensures Renamable(es, dir, [name], oldName, ignored) <==> IsRenamed(es[i], dir, oldName, ignored)
    ensures IsRenamed(es[i], dir, oldName, ignored) ==>
      OpFor(es, dir, [name], oldName, newName) ==
        RenameOp(dir + [es[i].name], Replace(es[i].name, oldName, newName), FileType(es[i]))
  {
    AnyIgnoredStep(ignored, dir, [name]);
    assert !AnyIgnored(ignored, dir + [name], []);
  }

  /** A logged rename of `dir + q` comes from the entry of the listing named `q[0]`. */
  lemma LoggedEntry(es: seq<Entry>, dir: Path, q: Path, oldName: string, newName: string,
                    ignored: Path -> bool, op: RenameOp) returns (i: nat)
    requires UniqueNames(es)
    requires op in RenameEntries(es, dir, oldName, newName, ignored).1 && op.from == dir + q
    ensures i < |es| && |q| >= 1 && es[i].name == q[0] && FindName(es, q[0]) == Some(i)
    ensures op in RenameEntry(es[i], dir, oldName, newName, ignored).1
    ensures es[i].Dir? ==> UniqueNames(es[i].children)
  {
    RenameUnder(es, dir, oldName, newName, ignored, op);
    i :| 0 <= i < |es| && op in RenameEntry(es[i], dir, oldName, newName, ignored).1;
    RenameEntryLogParts(es[i], dir, oldName, newName, ignored, op);
    assert es[i].name == q[0] by {
      assert op.from[..|dir| + 1] == dir + [q[0]];
      assert (dir + [es[i].name])[|dir|] == (dir + [q[0]])[|dir|];
    }
    UniqueFind(es, i);
  }

  /** Every rename step II logs is the rename of a renamable entry, made as
      `OpFor` describes. */
  lemma {:induction false} RenameLogSound(es: seq<Entry>, dir: Path, q: Path, oldName: string, newName: string,
                                          ignored: Path -> bool, op: RenameOp)
    requires UniqueNames(es)
    requires op in RenameEntries(es, dir, oldName, newName, ignored).1 && op.from == dir + q
    ensures Renamable(es, dir, q, oldName, ignored) && op == OpFor(es, dir, q, oldName, newName)
    decreases |q|
  {
    var i := LoggedEntry(es, dir, q, oldName, newName, ignored, op);
    var e := es[i];
    RenameEntryLogParts(e, dir, oldName, newName, ignored, op);
    if |q| == 1 {
      assert q == [e.name];
      RenamableHere(es, dir, e.name, i, oldName, newName, ignored);
    } else {
      assert dir + q == (dir + [q[0]]) + q[1..];
      RenameLogSound(e.children, dir + [q[0]], q[1..], oldName, newName, ignored, op);
      RenamableStep(es, dir, q, i, oldName, newName, ignored);
    }
  }

  /** Every renamable entry is renamed, as `OpFor` describes. */
  lemma {:induction false} RenameLogComplete(es: seq<Entry>, dir: Path, q: Path, oldName: string, newName: string,
                                             ignored: Path -> bool)
    requires Renamable(es, dir, q, oldName, ignored)
    ensures OpFor(es, dir, q, oldName, newName) in RenameEntries(es, dir, oldName, newName, ignored).1
    decreases |q|
  {
    var full := dir + [q[0]];
    assert dir + q == full + q[1..];
    AnyIgnoredStep(ignored, dir, q);
    var i := FindName(es, q[0]).value;
    var e := es[i];
    var op := OpFor(es, dir, q, oldName, newName);
    RenameEntryHas(e, dir, oldName, newName, ignored);
    if |q| == 1 {
      assert q == [e.name];
      assert op == RenameOp(dir + [e.name], Replace(e.name, oldName, newName), FileType(e));
    } else {
      RenameLogComplete(e.children, full, q[1..], oldName, newName, ignored);
      assert op == OpFor(e.children, full, q[1..], oldName, newName);
    }
    RenameEntriesHas(es, i, dir, oldName, newName, ignored, op);
  }

  /** With distinct sibling names, step II renames exactly the renamable
      entries, each in the way `OpFor` describes. */
  lemma RenameLogAt(es: seq<Entry>, dir: Path, q: Path, oldName: string, newName: string,
                    ignored: Path -> bool)
    requires UniqueNames(es)
    ensures var log := RenameEntries(es, dir, oldName, newName, ignored).1;
      && (forall op :: op in log && op.from == dir + q ==>
            Renamable(es, dir, q, oldName, ignored) && op == OpFor(es, dir, q, oldName, newName))
      && (Renamable(es, dir, q, oldName, ignored) ==> OpFor(es, dir, q, oldName, newName) in log)
  {
    var log := RenameEntries(es, dir, oldName, newName, ignored).1;
    forall op | op in log && op.from == dir + q
      ensures Renamable(es, dir, q, oldName, ignored) && op == OpFor(es, dir, q, oldName, newName)
    {
      RenameUnder(es, dir, oldName, newName, ignored, op);
      RenameLogSound(es, dir, q, oldName, newName, ignored, op);
    }
    if Renamable(es, dir, q, oldName, ignored) {
      RenameLogComplete(es, dir, q, oldName, newName, ignored);
    }
  }

  /** No path is renamed twice. */
  predicate DistinctSources(log: seq<RenameOp>) {
    forall a, b :: 0 <= a < b < |log| ==> log[a].from != log[b].from
  }

  /** Two logs whose sources all differ, each free of repeats, concatenate
      to a log free of repeats. */
  predicate SourcesApart(l1: seq<RenameOp>, l2: seq<RenameOp>) {
    forall a, b :: 0 <= a < |l1| && 0 <= b < |l2| ==> l1[a].from != l2[b].from
  }

  lemma DistinctSourcesConcat(l1: seq<RenameOp>, l2: seq<RenameOp>)
    requires DistinctSources(l1) && DistinctSources(l2) && SourcesApart(l1, l2)
    ensures DistinctSources(l1 + l2)
  {
    var log := l1 + l2;
    forall a, b | 0 <= a < b < |log| ensures log[a].from != log[b].from {
      if b < |l1| {
        assert log[a] == l1[a] && log[b] == l1[b];
      } else if a >= |l1| {
        assert log[a] == l2[a - |l1|] && log[b] == l2[b - |l1|];
      } else {
        assert log[a] == l1[a] && log[b] == l2[b - |l1|];
      }
    }
  }

  /** Renames made under two differently named siblings have different sources. */
  lemma SiblingSourcesApart(es: seq<Entry>, dir: Path, oldName: string, newName: string,
                            ignored: Path -> bool, e: Entry)
    requires forall k :: 0 <= k < |es| ==> es[k].name != e.name
    ensures SourcesApart(RenameEntries(es, dir, oldName, newName, ignored).1,
                         RenameEntry(e, dir, oldName, newName, ignored).1)
  {
    var l1 := RenameEntries(es, dir, oldName, newName, ignored).1;
    var l2 := RenameEntry(e, dir, oldName, newName, ignored).1;
    forall a, b | 0 <= a < |l1| && 0 <= b < |l2| ensures l1[a].from != l2[b].from {
      assert l1[a] in l1 && l2[b] in l2;
      RenameUnder(es, dir, oldName, newName, ignored, l1[a]);
      var k :| 0 <= k < |es| && l1[a] in RenameEntry(es[k], dir, oldName, newName, ignored).1;
      RenameEntryLogParts(es[k], dir, oldName, newName, ignored, l1[a]);
      RenameEntryLogParts(e, dir, oldName, newName, ignored, l2[b]);
      assert l1[a].from[..|dir| + 1][|dir|] == es[k].name;
      assert l2[b].from[..|dir| + 1][|dir|] == e.name;
    }
  }

  /** With distinct sibling names, step II renames each path at most once. */
  lemma {:induction false} RenameOnce(es: seq<Entry>, dir: Path, oldName: string, newName: string,
                                      ignored: Path -> bool)
    requires UniqueNames(es)
    ensures DistinctSources(RenameEntries(es, dir, oldName, newName, ignored).1)
    decreases es, 0
  {
    if es != [] {
      var init := es[..|es| - 1];
      var last := es[|es| - 1];
      assert forall i :: 0 <= i < |init| ==> init[i] == es[i];
      assert UniqueNames(init);
      RenameOnce(init, dir, oldName, newName, ignored);
      RenameEntryOnce(last, dir, oldName, newName, ignored);
      forall k | 0 <= k < |init| ensures init[k].name != last.name {
        assert es[k].name != es[|es| - 1].name;
      }
      SiblingSourcesApart(init, dir, oldName, newName, ignored, last);
      DistinctSourcesConcat(RenameEntries(init, dir, oldName, newName, ignored).1,
                            RenameEntry(last, dir, oldName, newName, ignored).1);
    }
  }

  lemma {:induction false} RenameEntryOnce(e: Entry, dir: Path, oldName: string, newName: string,
                                           ignored: Path -> bool)
    requires e.Dir? ==> UniqueNames(e.children)
    ensures DistinctSources(RenameEntry(e, dir, oldName, newName, ignored).1)
    decreases e, 1
  {
    var full := dir + [e.name];
    if !ignored(full) && e.Dir? {
      RenameOnce(e.children, full, oldName, newName, ignored);
      RenameEntryShape(e, dir, oldName, newName, ignored);
      var sub := RenameEntries(e.children, full, oldName, newName, ignored).1;
      var log := RenameEntry(e, dir, oldName, newName, ignored).1;
      assert log[..|sub|] == sub;
      forall a, b | 0 <= a < b < |log| ensures log[a].from != log[b].from {
        if b < |sub| {
          assert log[a] == sub[a] && log[b] == sub[b];
        } else {
          assert |log[a].from| > |dir| + 1 == |log[b].from|;
        }
      }
    }
  }

  /** Step I changes only file contents, so step II renames the same paths
      in the same order whether or not step I ran before it. */
  lemma {:induction false} RenameAfterUpdate(es: seq<Entry>, dir: Path, oldName: string, newName: string,
                                             dryRun: bool, ignored: Path -> bool)
    ensures RenameEntries(UpdateEntries(es, dir, oldName, newName, dryRun, ignored).0, dir, oldName, newName, ignored).1
         == RenameEntries(es, dir, oldName, newName, ignored).1
    decreases es, 0
  {
    if es != [] {
      var init := es[..|es| - 1];
      var last := es[|es| - 1];
      RenameAfterUpdate(init, dir, oldName, newName, dryRun, ignored);
      RenameEntryAfterUpdate(last, dir, oldName, newName, dryRun, ignored);
      var u := UpdateEntries(es, dir, oldName, newName, dryRun, ignored).0;
      var ui := UpdateEntries(init, dir, oldName, newName, dryRun, ignored).0;
      assert u[..|u| - 1] == ui;
    }
  }

  lemma {:induction false} RenameEntryAfterUpdate(e: Entry, dir: Path, oldName: string, newName: string,
                                                  dryRun: bool, ignored: Path -> bool)
    ensures RenameEntry(UpdateEntry(e, dir, oldName, newName, dryRun, ignored).0, dir, oldName, newName, ignored).1
         == RenameEntry(e, dir, oldName, newName, ignored).1
    decreases e, 1
  {
    if !ignored(dir + [e.name]) && e.Dir? {
      RenameAfterUpdate(e.children, dir + [e.name], oldName, newName, dryRun, ignored);
    }
  }

  // ---------------------------------------------------------------------------
  // Performing the renames one `os.rename` at a time

  /** `os.rename` of the entry at relative path `p` to the name `target` in
      the same directory: `None` when the path does not exist or when another
      entry of that directory already has the target name (the cases where
      the real call fails or overwrites, which this model does not follow). */
  function RenameAt(es: seq<Entry>, p: Path, target: string): Option<seq<Entry>>
    decreases |p|
  {
    if p == [] then None
    else match FindName(es, p[0])
      case None => None
      case Some(i) =>
        if |p| == 1 then
          if FindName(es, target).Some? && FindName(es, target).value != i then None
          else Some(es[i := WithName(es[i], target)])
        else if es[i].Dir? then
          match RenameAt(es[i].children, p[1..], target)
          case None => None
          case Some(children) => Some(es[i := Dir(es[i].name, children)])
        else None
  }

  /** Perform `ops` in order on the directory at `dir` whose listing is `es`. */
  function ApplyOps(es: seq<Entry>, dir: Path, ops: seq<RenameOp>): Option<seq<Entry>>
    decreases |ops|
  {
    if ops == [] then Some(es)
    else if !(dir <= ops[0].from) then None
    else match RenameAt(es, ops[0].from[|dir|..], ops[0].newName)
      case None => None
      case Some(es1) => ApplyOps(es1, dir, ops[1..])
  }

  /** Sibling names stay distinct through step II: no rename targets a name
      that a sibling has at that moment (its final name if it comes earlier
      in the scan, its original name if it comes later), in every directory
      step II walks. */
  ghost predicate NoClash(es: seq<Entry>, dir: Path, oldName: string, newName: string, ignored: Path -> bool)
    decreases es
  {
    && (forall i, j :: 0 <= j < i < |es| && IsRenamed(es[i], dir, oldName, ignored) ==>
          FinalName(es[i], dir, oldName, newName, ignored) != FinalName(es[j], dir, oldName, newName, ignored))
    && (forall i, j :: 0 <= i < j < |es| && IsRenamed(es[i], dir, oldName, ignored) ==>
          FinalName(es[i], dir, oldName, newName, ignored) != es[j].name)
    && (forall i :: 0 <= i < |es| && es[i].Dir? && !ignored(dir + [es[i].name]) ==>
          NoClash(es[i].children, dir + [es[i].name], oldName, newName, ignored))
  }

  lemma {:induction false} ApplyOpsAppend(es: seq<Entry>, dir: Path, a: seq<RenameOp>, b: seq<RenameOp>)
    requires ApplyOps(es, dir, a).Some?
    ensures ApplyOps(es, dir, a + b) == ApplyOps(ApplyOps(es, dir, a).value, dir, b)
    decreases |a|
  {
    if a != [] {
      assert (a + b)[0] == a[0] && (a + b)[1..] == a[1..] + b;
      var es1 := RenameAt(es, a[0].from[|dir|..], a[0].newName).value;
      ApplyOpsAppend(es1, dir, a[1..], b);
    } else {
      assert a + b == b;
    }
  }

  lemma {:induction false} FindNameAppend(es: seq<Entry>, x: Entry, name: string)
    ensures FindName(es + [x], name) ==
      if FindName(es, name).Some? then FindName(es, name)
      else if x.name == name then Some(|es|) else None
  {
    if es != [] {
      assert (es + [x])[1..] == es[1..] + [x];
      FindNameAppend(es[1..], x, name);
    }
  }

  lemma RenameAtAppend(es: seq<Entry>, x: Entry, p: Path, target: string)
    requires RenameAt(es, p, target).Some?
    requires |p| == 1 ==> target != x.name
    ensures RenameAt(es + [x], p, target) == Some(RenameAt(es, p, target).value + [x])
  {
    FindNameAppend(es, x, p[0]);
    FindNameAppend(es, x, target);
    var i := FindName(es, p[0]).value;
    if |p| == 1 {
      assert (es + [x])[i := WithName(es[i], target)] == es[i := WithName(es[i], target)] + [x];
    } else {
      var children := RenameAt(es[i].children, p[1..], target).value;
      assert (es + [x])[i := Dir(es[i].name, children)] == es[i := Dir(es[i].name, children)] + [x];
    }
  }

  /** Renames confined to the first entries of a listing are unaffected by a
      further entry, as long as no top-level rename targets its name. */
  lemma {:induction false} ApplyOpsFrame(es: seq<Entry>, x: Entry, dir: Path, ops: seq<RenameOp>)
    requires ApplyOps(es, dir, ops).Some?
    requires forall k :: 0 <= k < |ops| && |ops[k].from| == |dir| + 1 ==> ops[k].newName != x.name
    ensures ApplyOps(es + [x], dir, ops) == Some(ApplyOps(es, dir, ops).value + [x])
    decreases |ops|
  {
    if ops != [] {
      var q := ops[0].from[|dir|..];
      RenameAtAppend(es, x, q, ops[0].newName);
      var es1 := RenameAt(es, q, ops[0].newName).value;
      ApplyOpsFrame(es1, x, dir, ops[1..]);
    }
  }

  /** Renames confined to the inside of the directory `es[i]` act on its
      listing alone. */
  lemma {:induction false} ApplyOpsInside(es: seq<Entry>, i: nat, dir: Path, ops: seq<RenameOp>)
    requires i < |es| && es[i].Dir? && FindName(es, es[i].name) == Some(i)
    requires forall k :: 0 <= k < |ops| ==>
      |ops[k].from| > |dir| + 1 && ops[k].from[..|dir| + 1] == dir + [es[i].name]
    requires ApplyOps(es[i].children, dir + [es[i].name], ops).Some?
    ensures ApplyOps(es, dir, ops) ==
      Some(es[i := Dir(es[i].name, ApplyOps(es[i].children, dir + [es[i].name], ops).value)])
    decreases |ops|
  {
    var full := dir + [es[i].name];
    if ops == [] {
      assert es[i := Dir(es[i].name, es[i].children)] == es;
    } else {
      var from := ops[0].from;
      var q := from[|dir|..];
      assert dir <= from by {
        assert from[..|dir|] == from[..|dir| + 1][..|dir|] == dir;
      }
      assert q[0] == es[i].name by {
        assert q[0] == from[..|dir| + 1][|dir|];
      }
      assert q[1..] == from[|full|..];
      var ch1 := RenameAt(es[i].children, q[1..], ops[0].newName).value;
      var es1 := es[i := Dir(es[i].name, ch1)];
      assert RenameAt(es, q, ops[0].newName) == Some(es1);
      assert SameNames(es1, es);
      FindNameSameNames(es1, es, es[i].name);
      ApplyOpsInside(es1, i, dir, ops[1..]);
      assert es1[i := Dir(es[i].name, ApplyOps(ch1, full, ops[1..]).value)]
          == es[i := Dir(es[i].name, ApplyOps(ch1, full, ops[1..]).value)];
    }
  }

  /** The names a listing has after step II. */
  lemma RenameEntriesNames(es: seq<Entry>, dir: Path, oldName: string, newName: string, ignored: Path -> bool)
    ensures var r := RenameEntries(es, dir, oldName, newName, ignored).0;
      && |r| == |es|
      && forall k :: 0 <= k < |es| ==> r[k].name == FinalName(es[k], dir, oldName, newName, ignored)
  {
    RenameEntriesAt(es, dir, oldName, newName, ignored);
    forall k | 0 <= k < |es| ensures RenameEntries(es, dir, oldName, newName, ignored).0[k].name
                                     == FinalName(es[k], dir, oldName, newName, ignored) {
      RenameEntryShape(es[k], dir, oldName, newName, ignored);
    }
  }

  /** In a listing without clashes, no top-level rename under the earlier
      entries targets the name of the last one. */
  lemma EarlierRenamesAvoidLast(es: seq<Entry>, dir: Path, oldName: string, newName: string,
                                ignored: Path -> bool)
    requires es != [] && NoClash(es, dir, oldName, newName, ignored)
    ensures var l := RenameEntries(es[..|es| - 1], dir, oldName, newName, ignored).1;
      forall k :: 0 <= k < |l| && |l[k].from| == |dir| + 1 ==> l[k].newName != es[|es| - 1].name
  {
    var init := es[..|es| - 1];
    var l := RenameEntries(init, dir, oldName, newName, ignored).1;
    RenameEntriesAt(init, dir, oldName, newName, ignored);
    forall k | 0 <= k < |l| && |l[k].from| == |dir| + 1 ensures l[k].newName != es[|es| - 1].name {
      assert l[k] in l;
      var j :| 0 <= j < |init| && l[k] in RenameEntry(init[j], dir, oldName, newName, ignored).1;
      RenameEntryShape(init[j], dir, oldName, newName, ignored);
      var lj := RenameEntry(init[j], dir, oldName, newName, ignored).1;
      var m :| 0 <= m < |lj| && lj[m] == l[k];
      assert m == |lj| - 1 && IsRenamed(init[j], dir, oldName, ignored);
      assert es[j] == init[j];
    }
  }

  /** Once the earlier entries are renamed, the last entry is still found by
      its name, and its own target name is free. */
  lemma LastEntryReady(es: seq<Entry>, dir: Path, oldName: string, newName: string, ignored: Path -> bool)
    requires es != [] && UniqueNames(es) && NoClash(es, dir, oldName, newName, ignored)
    ensures var last := es[|es| - 1];
      var t := RenameEntries(es[..|es| - 1], dir, oldName, newName, ignored).0 + [last];
      && |t| == |es|
      && FindName(t, last.name) == Some(|es| - 1)
      && (IsRenamed(last, dir, oldName, ignored) ==>
            forall k :: 0 <= k < |t| && k != |es| - 1 ==> t[k].name != Replace(last.name, oldName, newName))
  {
    var init := es[..|es| - 1];
    var last := es[|es| - 1];
    var r := RenameEntries(init, dir, oldName, newName, ignored).0;
    RenameEntriesNames(init, dir, oldName, newName, ignored);
    forall k | 0 <= k < |r| ensures r[k].name != last.name {
      assert init[k] == es[k];
      if !IsRenamed(init[k], dir, oldName, ignored) {
        assert es[k].name != es[|es| - 1].name;
      }
    }
    FindNameAppend(r, last, last.name);
    var t := r + [last];
    if IsRenamed(last, dir, oldName, ignored) {
      forall k | 0 <= k < |t| && k != |es| - 1 ensures t[k].name != Replace(last.name, oldName, newName) {
        assert t[k] == r[k] && init[k] == es[k];
      }
    }
  }

  /** The conditions on a listing carry over to its first entries and to the
      contents of its last entry. */
  lemma ListingParts(es: seq<Entry>, dir: Path, oldName: string, newName: string, ignored: Path -> bool)
    requires es != [] && UniqueNames(es) && NoClash(es, dir, oldName, newName, ignored)
    ensures var init := es[..|es| - 1];
      UniqueNames(init) && NoClash(init, dir, oldName, newName, ignored)
    ensures var last := es[|es| - 1];
      last.Dir? && !ignored(dir + [last.name]) ==>
        UniqueNames(last.children) && NoClash(last.children, dir + [last.name], oldName, newName, ignored)
  {
    var init := es[..|es| - 1];
    assert forall k :: 0 <= k < |init| ==> init[k] == es[k];
  }

  /** Performing the renames step II logs, one `os.rename` at a time in log
      order, succeeds and leaves exactly the tree step II describes: every
      path is still valid when its turn comes, because everything inside a
      directory is renamed before the directory itself. */
  lemma {:induction false} RenameByOsRename(es: seq<Entry>, dir: Path, oldName: string, newName: string,
                                            ignored: Path -> bool)
    requires UniqueNames(es) && NoClash(es, dir, oldName, newName, ignored)
    ensures var r := RenameEntries(es, dir, oldName, newName, ignored);
      ApplyOps(es, dir, r.1) == Some(r.0)
    decreases es, 1
  {
    if es != [] {
      var init := es[..|es| - 1];
      var last := es[|es| - 1];
      ListingParts(es, dir, oldName, newName, ignored);
      RenameByOsRename(init, dir, oldName, newName, ignored);
      var r1 := RenameEntries(init, dir, oldName, newName, ignored);
      var r2 := RenameEntry(last, dir, oldName, newName, ignored);
      EarlierRenamesAvoidLast(es, dir, oldName, newName, ignored);
      ApplyOpsFrame(init, last, dir, r1.1);
      assert init + [last] == es;
      assert ApplyOps(es, dir, r1.1) == Some(r1.0 + [last]);
      ApplyOpsAppend(es, dir, r1.1, r2.1);
      LastEntryApply(es, dir, oldName, newName, ignored);
      assert RenameEntries(es, dir, oldName, newName, ignored) == (r1.0 + [r2.0], r1.1 + r2.1);
    }
  }

  /** After the earlier entries are renamed, the renames of the last entry
      take it to its final form and leave the others alone. */
  lemma LastEntryApply(es: seq<Entry>, dir: Path, oldName: string, newName: string, ignored: Path -> bool)
    requires es != [] && UniqueNames(es) && NoClash(es, dir, oldName, newName, ignored)
    ensures var r1 := RenameEntries(es[..|es| - 1], dir, oldName, newName, ignored);
      var r2 := RenameEntry(es[|es| - 1], dir, oldName, newName, ignored);
      ApplyOps(r1.0 + [es[|es| - 1]], dir, r2.1) == Some(r1.0 + [r2.0])
    decreases es, 0
  {
    var r1 := RenameEntries(es[..|es| - 1], dir, oldName, newName, ignored);
    var last := es[|es| - 1];
    var r2 := RenameEntry(last, dir, oldName, newName, ignored);
    ListingParts(es, dir, oldName, newName, ignored);
    LastEntryReady(es, dir, oldName, newName, ignored);
    var t := r1.0 + [last];
    assert t[|r1.0|] == last;
    RenameEntryApply(t, |r1.0|, dir, oldName, newName, ignored);
    assert t[|r1.0| := r2.0] == r1.0 + [r2.0];
  }

  /** The renames inside a directory entry, performed in its parent's
      listing, rename its contents and leave the rest alone. */
  lemma RenameInsideApply(es: seq<Entry>, i: nat, dir: Path, oldName: string, newName: string,
                          ignored: Path -> bool)
    requires i < |es| && FindName(es, es[i].name) == Some(i) && es[i].Dir? && !ignored(dir + [es[i].name])
    requires UniqueNames(es[i].children) && NoClash(es[i].children, dir + [es[i].name], oldName, newName, ignored)
    ensures var sub := RenameEntries(es[i].children, dir + [es[i].name], oldName, newName, ignored);
      ApplyOps(es, dir, sub.1) == Some(es[i := Dir(es[i].name, sub.0)])
    decreases es[i], 0
  {
    var e := es[i];
    var full := dir + [e.name];
    var sub := RenameEntries(e.children, full, oldName, newName, ignored);
    RenameByOsRename(e.children, full, oldName, newName, ignored);
    RenameEntryShape(e, dir, oldName, newName, ignored);
    var log := RenameEntry(e, dir, oldName, newName, ignored).1;
    assert log[..|sub.1|] == sub.1;
    forall k | 0 <= k < |sub.1| ensures |sub.1[k].from| > |dir| + 1 && sub.1[k].from[..|dir| + 1] == full {
      assert sub.1[k] == log[k];
    }
    ApplyOpsInside(es, i, dir, sub.1);
  }

  /** The entry's own rename, performed last, finds it under its old name
      and its target name free. */
  lemma OwnRenameApply(es: seq<Entry>, i: nat, dir: Path, walked: Entry, target: string, kind: string)
    requires i < |es| && FindName(es, walked.name) == Some(i) && es[i] == walked
    requires forall k :: 0 <= k < |es| && k != i ==> es[k].name != target
    ensures ApplyOps(es, dir, [RenameOp(dir + [walked.name], target, kind)]) == Some(es[i := WithName(walked, target)])
  {
    var own := RenameOp(dir + [walked.name], target, kind);
    assert dir <= own.from;
    assert own.from[|dir|..] == [walked.name];
    assert FindName(es, target).Some? ==> FindName(es, target).value == i;
    assert RenameAt(es, [walked.name], target) == Some(es[i := WithName(walked, target)]);
    assert [own][1..] == [];
  }

  lemma {:induction false} RenameEntryApply(es: seq<Entry>, i: nat, dir: Path, oldName: string, newName: string,
                                            ignored: Path -> bool)
    requires i < |es| && FindName(es, es[i].name) == Some(i)
    requires es[i].Dir? && !ignored(dir + [es[i].name]) ==>
      UniqueNames(es[i].children) && NoClash(es[i].children, dir + [es[i].name], oldName, newName, ignored)
    requires IsRenamed(es[i], dir, oldName, ignored) ==>
      forall k :: 0 <= k < |es| && k != i ==> es[k].name != Replace(es[i].name, oldName, newName)
    ensures var r := RenameEntry(es[i], dir, oldName, newName, ignored);
      ApplyOps(es, dir, r.1) == Some(es[i := r.0])
    decreases es[i], 1
  {
    var e := es[i];
    var full := dir + [e.name];
    if ignored(full) {
      assert es[i := e] == es;
    } else {
      var sub := if e.Dir? then RenameEntries(e.children, full, oldName, newName, ignored) else ([], []);
      var walked := if e.Dir? then Dir(e.name, sub.0) else e;
      var es1 := es[i := walked];
      if e.Dir? {
        RenameInsideApply(es, i, dir, oldName, newName, ignored);
      } else {
        assert es1 == es;
      }
      if Contains(e.name, oldName) {
        var target := Replace(e.name, oldName, newName);
        var own := RenameOp(full, target, FileType(e));
        ApplyOpsAppend(es, dir, sub.1, [own]);
        assert SameNames(es1, es);
        FindNameSameNames(es1, es, e.name);
        OwnRenameApply(es1, i, dir, walked, target, FileType(e));
        assert es1[i := WithName(walked, target)] == es[i := WithName(walked, target)];
      }
    }
  }

  // ---------------------------------------------------------------------------
  // Step I keeps the shape step II depends on

  /** Two listings with the same names and the same directories, all the way down. */
  ghost predicate SameShape(a: seq<Entry>, b: seq<Entry>)
    decreases a
  {
    && |a| == |b|
    && forall k :: 0 <= k < |a| ==>
         && a[k].name == b[k].name
         && a[k].Dir? == b[k].Dir?
         && (a[k].Dir? ==> SameShape(a[k].children, b[k].children))
  }

  lemma {:induction false} UpdateSameShape(es: seq<Entry>, dir: Path, oldName: string, newName: string,
                                           dryRun: bool, ignored: Path -> bool)
    ensures SameShape(UpdateEntries(es, dir, oldName, newName, dryRun, ignored).0, es)
    decreases es
  {
    var r := UpdateEntries(es, dir, oldName, newName, dryRun, ignored).0;
    UpdateEntriesAt(es, dir, oldName, newName, dryRun, ignored);
    forall k | 0 <= k < |es|
      ensures r[k].name == es[k].name && r[k].Dir? == es[k].Dir?
      ensures r[k].Dir? ==> SameShape(r[k].children, es[k].children)
    {
      if es[k].Dir? && !ignored(dir + [es[k].name]) {
        UpdateSameShape(es[k].children, dir + [es[k].name], oldName, newName, dryRun, ignored);
      } else if es[k].Dir? {
        SameShapeRefl(es[k].children);
      }
    }
  }

  lemma {:induction false} SameShapeRefl(a: seq<Entry>)
    ensures SameShape(a, a)
    decreases a
  {
    forall k | 0 <= k < |a| && a[k].Dir? ensures SameShape(a[k].children, a[k].children) {
      SameShapeRefl(a[k].children);
    }
  }

  lemma {:induction false} UniqueNamesShape(a: seq<Entry>, b: seq<Entry>)
    requires SameShape(a, b) && UniqueNames(b)
    ensures UniqueNames(a)
    decreases a
  {
    forall k | 0 <= k < |a| && a[k].Dir? ensures UniqueNames(a[k].children) {
      UniqueNamesShape(a[k].children, b[k].children);
    }
  }

  lemma {:induction false} NoClashShape(a: seq<Entry>, b: seq<Entry>, dir: Path, oldName: string, newName: string,
                                        ignored: Path -> bool)
    requires SameShape(a, b) && NoClash(b, dir, oldName, newName, ignored)
    ensures NoClash(a, dir, oldName, newName, ignored)
    decreases a
  {
    forall k | 0 <= k < |a| && a[k].Dir? && !ignored(dir + [a[k].name])
      ensures NoClash(a[k].children, dir + [a[k].name], oldName, newName, ignored)
    {
      NoClashShape(a[k].children, b[k].children, dir + [a[k].name], oldName, newName, ignored);
    }
  }

  // ---------------------------------------------------------------------------
  // main

  /** `os.path.basename`: the part of the path after its last `/`. */
  function Basename(p: string): (r: string)
    ensures |r| <= |p| && r == p[|p| - |r|..]
    ensures '/' !in r
    ensures |r| < |p| ==> p[|p| - |r| - 1] == '/'
    decreases |p|
  {
    if p == [] || p[|p| - 1] == '/' then []
    else Basename(p[..|p| - 1]) + [p[|p| - 1]]
  }

  /** The new name `main` works with: the one given, or else the basename
      of the git root. */
  function ChosenName(gitRoot: string, newNameArg: Option<string>): string {
    match newNameArg
    case Some(name) => name
    case None => Basename(gitRoot)
  }

  /** How a run of the script ends. */
  datatype Outcome =
    | NotARepository                                        // `find_git_root` raises
    | Identical(name: string)                               // exits before changing anything
    | Completed(newName: string, tree: seq<Entry>, total: nat)

  /** `main` on the project whose root directory lists `es`. `gitRoot` is
      what `git rev-parse --show-toplevel` prints, or `None` outside a
      repository. Step I runs on the tree as found, step II on the tree step I
      left; the total is the sum of the two counts. */
  function Script(es: seq<Entry>, gitRoot: Option<string>, newNameArg: Option<string>, oldName: string,
                  dryRun: bool, ignored: Path -> bool): Outcome
  {
    if gitRoot.None? then NotARepository
    else
      var newName := ChosenName(gitRoot.value, newNameArg);
      if newName == oldName then Identical(newName)
      else
        var steps := Steps(es, oldName, newName, dryRun, ignored);
        Completed(newName, steps.0, steps.1)
  }

  /** Steps I and II of `main`, on the project root's listing: the tree
      afterwards and the total of the two counts. Step II walks the tree
      step I left behind. */
  function Steps(es: seq<Entry>, oldName: string, newName: string, dryRun: bool,
                 ignored: Path -> bool): (seq<Entry>, nat)
  {
    var step1 := UpdateEntries(es, [], oldName, newName, dryRun, ignored);
    var step2 := RenameEntries(step1.0, [], oldName, newName, ignored);
    (if dryRun then step1.0 else step2.0, step1.1 + |step2.1|)
  }

  method RunScript(es: seq<Entry>, gitRoot: Option<string>, newNameArg: Option<string>, oldName: string,
                   dryRun: bool, ignored: Path -> bool) returns (outcome: Outcome)
    ensures outcome == Script(es, gitRoot, newNameArg, oldName, dryRun, ignored)
  {
    if gitRoot.None? {
      outcome := NotARepository;
    } else {
      var newName := ChosenName(gitRoot.value, newNameArg);
      if newName == oldName {
        outcome := Identical(newName);
      } else {
        var tree, total := RunSteps(es, oldName, newName, dryRun, ignored);
        outcome := Completed(newName, tree, total);
      }
    }
  }

  /** Steps I and II of `main`, one after the other. */
  method RunSteps(es: seq<Entry>, oldName: string, newName: string, dryRun: bool, ignored: Path -> bool)
    returns (tree: seq<Entry>, total: nat)
    ensures tree == Steps(es, oldName, newName, dryRun, ignored).0
    ensures total == Steps(es, oldName, newName, dryRun, ignored).1
  {
    var edited, count1 := UpdateProjectName(es, [], oldName, newName, dryRun, ignored);
    ghost var step1 := UpdateEntries(es, [], oldName, newName, dryRun, ignored);
    assert edited == step1.0 && count1 == step1.1;
    var renamed, log, count2 := RenameDirectoriesAndFiles(edited, [], oldName, newName, dryRun, ignored);
    ghost var step2 := RenameEntries(step1.0, [], oldName, newName, ignored);
    assert count2 == |step2.1|;
    assert renamed == if dryRun then step1.0 else step2.0;
    tree, total := renamed, count1 + count2;
  }

  /** Nothing happens outside a repository or when the two names coincide;
      otherwise the new name is the one given, or else the git root's last
      path component: a suffix of the root with no `/` in it, preceded in the
      root by a `/` unless it is the whole root. */
  lemma ScriptDecision(es: seq<Entry>, gitRoot: Option<string>, newNameArg: Option<string>, oldName: string,
                       dryRun: bool, ignored: Path -> bool)
    ensures var r := Script(es, gitRoot, newNameArg, oldName, dryRun, ignored);
      && (r.NotARepository? <==> gitRoot.None?)
      && (r.Identical? <==> gitRoot.Some? && ChosenName(gitRoot.value, newNameArg) == oldName)
      && (r.Completed? ==> r.newName != oldName && r.newName == ChosenName(gitRoot.value, newNameArg))
      && (gitRoot.Some? && newNameArg.None? && r.Completed? ==>
            var root := gitRoot.value;
            && r.newName == Basename(root)
            && |r.newName| <= |root|
            && r.newName == root[|root| - |r.newName|..]
            && '/' !in r.newName
            && (|r.newName| < |root| ==> root[|root| - |r.newName| - 1] == '/'))
  {
    if gitRoot.Some? {
      var name := ChosenName(gitRoot.value, newNameArg);
      if name != oldName {
        var steps := Steps(es, oldName, name, dryRun, ignored);
        assert Script(es, gitRoot, newNameArg, oldName, dryRun, ignored) == Completed(name, steps.0, steps.1);
      }
    }
  }

  /** A dry run changes nothing, yet reports the total a real run reports. */
  lemma ScriptDryRun(es: seq<Entry>, gitRoot: Option<string>, newNameArg: Option<string>, oldName: string,
                     ignored: Path -> bool)
    requires Script(es, gitRoot, newNameArg, oldName, false, ignored).Completed?
    ensures var dry := Script(es, gitRoot, newNameArg, oldName, true, ignored);
      && dry.Completed?
      && dry.tree == es
      && dry.total == Script(es, gitRoot, newNameArg, oldName, false, ignored).total
  {
    var newName := ChosenName(gitRoot.value, newNameArg);
    UpdateDryRun(es, [], oldName, newName, ignored);
    RenameAfterUpdate(es, [], oldName, newName, true, ignored);
    RenameAfterUpdate(es, [], oldName, newName, false, ignored);
  }

  /** With distinct sibling names, the total counts each file whose content
      is edited once, plus each rename once; and when no rename clashes, the
      final tree is what performing the logged renames on the edited tree,
      one `os.rename` at a time, gives. */
  lemma ScriptRealRun(es: seq<Entry>, gitRoot: Option<string>, newNameArg: Option<string>, oldName: string,
                      ignored: Path -> bool)
    requires gitRoot.Some? && ChosenName(gitRoot.value, newNameArg) != oldName
    requires UniqueNames(es)
    ensures var newName := ChosenName(gitRoot.value, newNameArg);
      var r := Script(es, gitRoot, newNameArg, oldName, false, ignored);
      var edited := UpdateEntries(es, [], oldName, newName, false, ignored).0;
      var log := RenameEntries(es, [], oldName, newName, ignored).1;
      && r.Completed?
      && r.total == |EditedPaths(es, [], oldName, ignored)| + |log|
      && NoDuplicates(EditedPaths(es, [], oldName, ignored))
      && DistinctSources(log)
      && PostOrdered(log)
      && (NoClash(es, [], oldName, newName, ignored) ==> ApplyOps(edited, [], log) == Some(r.tree))
  {
    var newName := ChosenName(gitRoot.value, newNameArg);
    var edited := UpdateEntries(es, [], oldName, newName, false, ignored).0;
    UpdateCountIsEdited(es, [], oldName, newName, false, ignored);
    EditedPathsNoDuplicates(es, [], oldName, ignored);
    RenameAfterUpdate(es, [], oldName, newName, false, ignored);
    RenameOnce(es, [], oldName, newName, ignored);
    RenamePostOrder(es, [], oldName, newName, ignored);
    if NoClash(es, [], oldName, newName, ignored) {
      UpdateSameShape(es, [], oldName, newName, false, ignored);
      UniqueNamesShape(edited, es);
      NoClashShape(edited, es, [], oldName, newName, ignored);
      RenameByOsRename(edited, [], oldName, newName, ignored);
    }
  }
}

/** The whole run (`main` after its argument checks): the scan pass over
    the walk and the replies, then the copy pass with the tables the scan
    produced. */
module SmbCopy {
  import opened Text
  import opened Paths
  import opened Sanitizer
  import opened Reply
  import opened Scanner
  import opened Copier

  /** A run either reaches the copy pass and performs its actions, or ends
      at a prompt when the input runs out, before anything is copied. */
  datatype Outcome = Completed(actions: seq<Action>) | Aborted

  /** What a run does, given the walk, the replies and the user id. */
  function Transfer(srcRoot: string, dstRoot: string, uid: nat,
                    entries: seq<Entry>, answers: seq<string>): Outcome
    requires WellFormed(entries)
  {
    match ScanOf(entries, answers)
    case InputExhausted => Aborted
    case Scanned(renames, skips) =>
      Completed(CopyPlan(srcRoot, ResolveDestination(dstRoot, uid), entries, renames, skips))
  }

  /** `scan_directory` then `copy_directory`. */
  method Run(srcRoot: string, dstRoot: string, uid: nat,
             entries: seq<Entry>, answers: seq<string>) returns (outcome: Outcome)
    requires WellFormed(entries)
    ensures outcome == Transfer(srcRoot, dstRoot, uid, entries, answers)
  {
    var scan := ScanDirectory(entries, answers);
    if scan.InputExhausted? {
      return Aborted;
    }
    var actions := CopyDirectory(srcRoot, dstRoot, uid, entries, scan.renames, scan.skips);
    outcome := Completed(actions);
  }

  /** A run ends early exactly when the walk raises more prompts than
      there are replies. */
  lemma TransferAbortsIff(srcRoot: string, dstRoot: string, uid: nat,
                          entries: seq<Entry>, answers: seq<string>)
    requires WellFormed(entries)
    ensures Transfer(srcRoot, dstRoot, uid, entries, answers).Aborted?
      <==> Prompts(entries) > |answers|
  {
    ScanExhaustedIff(entries, answers);
  }

  /** Entry `i` is prompted and its reply accepts the rename. */
  predicate Accepted(entries: seq<Entry>, answers: seq<string>, i: nat)
    requires WellFormed(entries) && i < |entries|
  {
    WellFormedPrefix(entries, i);
    var k := Prompts(entries[..i]);
    NeedsRename(entries[i].path) && k < |answers| && Confirm(answers[k])
  }

  /** Entry `i` is prompted and its reply refuses the rename. */
  predicate Refused(entries: seq<Entry>, answers: seq<string>, i: nat)
    requires WellFormed(entries) && i < |entries|
  {
    WellFormedPrefix(entries, i);
    var k := Prompts(entries[..i]);
    NeedsRename(entries[i].path) && k < |answers| && !Confirm(answers[k])
  }

  /** After a complete scan, an entry is on the skip list exactly when its
      rename was refused, and the copier writes it to its renamed path
      when the rename was accepted and to its own path otherwise. */
  lemma ScanResolves(entries: seq<Entry>, answers: seq<string>, i: nat)
    requires WellFormed(entries) && Distinct(entries) && i < |entries|
    requires ScanOf(entries, answers).Scanned?
    ensures var s := ScanOf(entries, answers);
      var p := entries[i].path;
      && (p in s.skips <==> Refused(entries, answers, i))
      && ResolveRel(p, s.renames) == if Accepted(entries, answers, i) then Renamed(p) else p
  {
    var s := ScanOf(entries, answers);
    var p := entries[i].path;
    ScanClassifies(entries, answers, i);
    if p in s.renames {
      ScanRecordsOnlyChanged(entries, answers);
    }
  }

  /** Entry `i` through the whole run: when its rename was refused it
      produces no action; otherwise, at its place in the walk, the parent
      of its destination is ensured and then the file is copied there or
      the directory created there, the destination being the resolved
      root joined with its renamed path when the rename was accepted and
      with its own path otherwise. */
  lemma TransferEntry(srcRoot: string, dstRoot: string, uid: nat,
                      entries: seq<Entry>, answers: seq<string>, i: nat)
    requires WellFormed(entries) && Distinct(entries) && i < |entries|
    requires Transfer(srcRoot, dstRoot, uid, entries, answers).Completed?
    ensures var s := ScanOf(entries, answers);
      var root := ResolveDestination(dstRoot, uid);
      var plan := Transfer(srcRoot, dstRoot, uid, entries, answers).actions;
      var off := Offset(srcRoot, root, entries, s.renames, s.skips, i);
      var next := Offset(srcRoot, root, entries, s.renames, s.skips, i + 1);
      var e := entries[i];
      var dest := Join(root, Render(if Accepted(entries, answers, i) then Renamed(e.path) else e.path));
      && next <= |plan|
      && if Refused(entries, answers, i) then
        next == off
      else
        && next == off + (if e.kind.Other? then 1 else 2)
        && plan[off] == EnsureDir(Dirname(dest))
        && (e.kind.File? ==> plan[off + 1] == CopyFile(Join(srcRoot, Render(e.path)), dest))
        && (e.kind.Directory? ==> plan[off + 1] == EnsureDir(dest))
  {
    var s := ScanOf(entries, answers);
    ScanResolves(entries, answers, i);
    EntryInPlan(srcRoot, ResolveDestination(dstRoot, uid), entries, s.renames, s.skips, i);
  }

  /** A file whose name needs sanitising and whose rename is accepted is
      copied to a destination whose own name holds no refused character. */
  lemma AcceptedNameIsClean(entries: seq<Entry>, answers: seq<string>, i: nat)
    requires WellFormed(entries) && i < |entries|
    requires Accepted(entries, answers, i)
    ensures var r := Renamed(entries[i].path);
      ValidPath(r) && forall c :: c in InvalidChars ==> c !in Leaf(r)
  {
    var p := entries[i].path;
    RenamedRender(p);
    SanitizeRemovesInvalid(Leaf(p));
  }

  /** The replies the scenarios use: `y` accepts and `n` refuses. */
  lemma ScenarioReplies()
    ensures Confirm("y") && !Confirm("n")
  {
    StripExact([], "y", []);
    StripExact([], "n", []);
    assert [] + "y" + [] == "y";
    assert [] + "n" + [] == "n";
    assert Lower("y") == "y";
    assert Lower("n") == "n";
  }

  /** The plan of a two-entry walk is the two blocks in walk order. */
  lemma PlanOfTwo(srcRoot: string, dstRoot: string, e1: Entry, e2: Entry,
                  renames: map<Path, Path>, skips: seq<Path>)
    ensures CopyPlan(srcRoot, dstRoot, [e1, e2], renames, skips)
      == EntryActions(srcRoot, dstRoot, e1, renames, skips)
         + EntryActions(srcRoot, dstRoot, e2, renames, skips)
  {
    assert [e1, e2] == [e1] + [e2];
    CopyPlanAppend(srcRoot, dstRoot, [e1], [e2], renames, skips);
    CopyPlanSingle(srcRoot, dstRoot, e1, renames, skips);
    CopyPlanSingle(srcRoot, dstRoot, e2, renames, skips);
  }

  /** The scan of a two-entry walk is two steps. */
  lemma ScanOfTwo(e1: Entry, e2: Entry, answers: seq<string>)
    requires ValidPath(e1.path) && ValidPath(e2.path)
    ensures WellFormed([e1, e2]) && WellFormed([e1])
    ensures ScanOf([e1, e2], answers)
      == ScanStep(ScanStep(Scanned(map[], []), e1.path, 0, answers), e2.path,
                  if NeedsRename(e1.path) then 1 else 0, answers)
  {
    var entries := [e1, e2];
    ScanOfExtend(entries, 0, answers);
    ScanOfExtend(entries, 1, answers);
    assert entries[..1] == [e1];
    assert entries[..2] == entries;
  }

  /** A root the scenarios write under or read from: not empty and not
      ending with a separator. */
  predicate PlainRoot(root: string) {
    root != [] && root[|root| - 1] != Sep && !(SmbScheme <= root)
  }

  /** A top-level name under a plain root, and the directory `dirname`
      reports for it. */
  lemma TopLevelName(root: string, name: string)
    requires PlainRoot(root) && ValidSegment(name)
    ensures Join(root, Render([name])) == root + [Sep] + name
    ensures Dirname(root + [Sep] + name) == root
  {
    assert name[0] in name;
    DirnameSplit(root, name);
  }

  /** The actions of a top-level entry that is not skipped and resolves to
      the name `destName`. */
  lemma TopLevelBlock(srcRoot: string, dstRoot: string, e: Entry, destName: string,
                      renames: map<Path, Path>, skips: seq<Path>)
    requires PlainRoot(srcRoot) && PlainRoot(dstRoot)
    requires |e.path| == 1 && ValidSegment(e.path[0]) && ValidSegment(destName)
    requires e.path !in skips && ResolveRel(e.path, renames) == [destName]
    ensures EntryActions(srcRoot, dstRoot, e, renames, skips) ==
      [EnsureDir(dstRoot)] +
      match e.kind
      case File => [CopyFile(srcRoot + [Sep] + e.path[0], dstRoot + [Sep] + destName)]
      case Directory => [EnsureDir(dstRoot + [Sep] + destName)]
      case Other => []
  {
    BlockShape(srcRoot, dstRoot, e, renames, skips);
    TopLevelName(dstRoot, destName);
    TopLevelName(srcRoot, e.path[0]);
    assert e.path == [e.path[0]];
  }

  /** The actions of a file `d/x` that neither table names. */
  lemma NestedFileBlock(srcRoot: string, dstRoot: string, d: string, x: string,
                        renames: map<Path, Path>, skips: seq<Path>)
    requires PlainRoot(srcRoot) && PlainRoot(dstRoot) && ValidSegment(d) && ValidSegment(x)
    requires [d, x] !in renames && [d, x] !in skips
    ensures EntryActions(srcRoot, dstRoot, Entry([d, x], File), renames, skips)
      == [EnsureDir(dstRoot + [Sep] + d),
          CopyFile(srcRoot + [Sep] + d + [Sep] + x, dstRoot + [Sep] + d + [Sep] + x)]
  {
    BlockShape(srcRoot, dstRoot, Entry([d, x], File), renames, skips);
    var p: Path := [d, x];
    assert p[..1] == [d];
    assert Render(p) == d + [Sep] + x;
    assert d[0] in d && d[|d| - 1] in d;
    JoinExtend(dstRoot, d, x);
    JoinExtend(srcRoot, d, x);
    TopLevelName(dstRoot, d);
    TopLevelName(srcRoot, d);
    DirnameSplit(dstRoot + [Sep] + d, x);
  }

  /** The names of the scenarios: `c` and `x` are clean, `a:b.txt`,
      `a:b` and `d"e.txt` are not. */
  lemma ScenarioNames()
    ensures Sanitize("c") == "c" && Sanitize("x") == "x"
    ensures Sanitize("a:b.txt") == "a-b.txt" && Sanitize("a:b") == "a-b"
    ensures Sanitize("d\"e.txt") == "d-e.txt"
  {
  }

  /** The scan of a single prompted entry: its reply decides the table. */
  lemma ScanOfPrompted(e: Entry, a: string)
    requires ValidPath(e.path) && NeedsRename(e.path)
    ensures WellFormed([e])
    ensures ScanOf([e], [a]) ==
      if Confirm(a) then Scanned(map[e.path := Renamed(e.path)], []) else Scanned(map[], [e.path])
  {
    var entries := [e];
    ScanOfExtend(entries, 0, [a]);
    assert entries[..1] == entries;
  }

  /** An entry whose name needs no change, next to a prompted one, leaves
      the tables as the prompted one alone makes them, in either order. */
  lemma ScanOfCleanAndPrompted(clean: Entry, prompted: Entry, a: string)
    requires ValidPath(clean.path) && ValidPath(prompted.path)
    requires !NeedsRename(clean.path) && NeedsRename(prompted.path)
    ensures WellFormed([clean, prompted]) && WellFormed([prompted, clean]) && WellFormed([prompted])
    ensures ScanOf([clean, prompted], [a]) == ScanOf([prompted], [a])
    ensures ScanOf([prompted, clean], [a]) == ScanOf([prompted], [a])
  {
    ScanOfTwo(clean, prompted, [a]);
    ScanOfTwo(prompted, clean, [a]);
    ScanOfPrompted(prompted, a);
  }

  /** A file whose name needs sanitising (such as `a:b.txt`), next to a
      directory whose name does not (such as `c`), with a reply that
      accepts: the directory is created under its own name and the file
      is copied under its sanitised name. */
  lemma ScenarioRenameAccepted(srcRoot: string, dstRoot: string, uid: nat,
                               dir: string, name: string, reply: string)
    requires PlainRoot(srcRoot) && PlainRoot(dstRoot)
    requires ValidSegment(dir) && ValidSegment(name)
    requires Sanitize(dir) == dir && Sanitize(name) != name && Confirm(reply)
    ensures Transfer(srcRoot, dstRoot, uid, [Entry([dir], Directory), Entry([name], File)], [reply])
      == Completed([EnsureDir(dstRoot), EnsureDir(dstRoot + [Sep] + dir),
                    EnsureDir(dstRoot), CopyFile(srcRoot + [Sep] + name, dstRoot + [Sep] + Sanitize(name))])
  {
    var e1, e2 := Entry([dir], Directory), Entry([name], File);
    var renames := map[[name] := [Sanitize(name)]];
    assert ScanOf([e1, e2], [reply]) == Scanned(renames, []) by {
      assert Renamed([name]) == [Sanitize(name)];
      ScanOfCleanAndPrompted(e1, e2, reply);
      ScanOfPrompted(e2, reply);
    }
    assert CopyPlan(srcRoot, dstRoot, [e1, e2], renames, [])
      == [EnsureDir(dstRoot), EnsureDir(dstRoot + [Sep] + dir),
          EnsureDir(dstRoot), CopyFile(srcRoot + [Sep] + name, dstRoot + [Sep] + Sanitize(name))] by {
      SanitizeKeepsSegment(name);
      PlanOfTwo(srcRoot, dstRoot, e1, e2, renames, []);
      TopLevelBlock(srcRoot, dstRoot, e1, dir, renames, []);
      TopLevelBlock(srcRoot, dstRoot, e2, Sanitize(name), renames, []);
    }
    assert ResolveDestination(dstRoot, uid) == dstRoot;
  }

  /** A file whose name needs sanitising (such as `d"e.txt`), with a reply
      that refuses: nothing at all is written for it. */
  lemma ScenarioRenameRefused(srcRoot: string, dstRoot: string, uid: nat, name: string, reply: string)
    requires ValidSegment(name) && Sanitize(name) != name && !Confirm(reply)
    ensures Transfer(srcRoot, dstRoot, uid, [Entry([name], File)], [reply]) == Completed([])
  {
    var e := Entry([name], File);
    ScanOfPrompted(e, reply);
    CopyPlanSingle(srcRoot, ResolveDestination(dstRoot, uid), e, map[], [[name]]);
  }

  /** The rename map only holds the renamed entry itself: a file inside a
      renamed directory is still written under the directory's original
      name. */
  lemma ScenarioChildOfRenamedDirectory(srcRoot: string, dstRoot: string, uid: nat,
                                        dir: string, x: string, reply: string)
    requires PlainRoot(srcRoot) && PlainRoot(dstRoot)
    requires ValidSegment(dir) && ValidSegment(x)
    requires Sanitize(dir) != dir && Sanitize(x) == x && Confirm(reply)
    ensures Transfer(srcRoot, dstRoot, uid, [Entry([dir], Directory), Entry([dir, x], File)], [reply])
      == Completed([EnsureDir(dstRoot), EnsureDir(dstRoot + [Sep] + Sanitize(dir)),
                    EnsureDir(dstRoot + [Sep] + dir),
                    CopyFile(srcRoot + [Sep] + dir + [Sep] + x, dstRoot + [Sep] + dir + [Sep] + x)])
  {
    var e1, e2 := Entry([dir], Directory), Entry([dir, x], File);
    var renames := map[[dir] := [Sanitize(dir)]];
    assert ScanOf([e1, e2], [reply]) == Scanned(renames, []) by {
      assert Renamed([dir]) == [Sanitize(dir)];
      assert Leaf([dir, x]) == x;
      ScanOfCleanAndPrompted(e2, e1, reply);
      ScanOfPrompted(e1, reply);
    }
    assert CopyPlan(srcRoot, dstRoot, [e1, e2], renames, [])
      == [EnsureDir(dstRoot), EnsureDir(dstRoot + [Sep] + Sanitize(dir)),
          EnsureDir(dstRoot + [Sep] + dir),
          CopyFile(srcRoot + [Sep] + dir + [Sep] + x, dstRoot + [Sep] + dir + [Sep] + x)] by {
      assert [dir, x] != [dir];
      SanitizeKeepsSegment(dir);
      PlanOfTwo(srcRoot, dstRoot, e1, e2, renames, []);
      TopLevelBlock(srcRoot, dstRoot, e1, Sanitize(dir), renames, []);
      NestedFileBlock(srcRoot, dstRoot, dir, x, renames, []);
    }
    assert ResolveDestination(dstRoot, uid) == dstRoot;
  }

  /** Skipping is per entry: a file inside a skipped directory is still
      copied, under the directory's original name. */
  lemma ScenarioChildOfSkippedDirectory(srcRoot: string, dstRoot: string, uid: nat,
                                        dir: string, x: string, reply: string)
    requires PlainRoot(srcRoot) && PlainRoot(dstRoot)
    requires ValidSegment(dir) && ValidSegment(x)
    requires Sanitize(dir) != dir && Sanitize(x) == x && !Confirm(reply)
    ensures Transfer(srcRoot, dstRoot, uid, [Entry([dir], Directory), Entry([dir, x], File)], [reply])
      == Completed([EnsureDir(dstRoot + [Sep] + dir),
                    CopyFile(srcRoot + [Sep] + dir + [Sep] + x, dstRoot + [Sep] + dir + [Sep] + x)])
  {
    var e1, e2 := Entry([dir], Directory), Entry([dir, x], File);
    var skips := [[dir]];
    assert ScanOf([e1, e2], [reply]) == Scanned(map[], skips) by {
      assert Leaf([dir, x]) == x;
      ScanOfCleanAndPrompted(e2, e1, reply);
      ScanOfPrompted(e1, reply);
    }
    assert CopyPlan(srcRoot, dstRoot, [e1, e2], map[], skips)
      == [EnsureDir(dstRoot + [Sep] + dir),
          CopyFile(srcRoot + [Sep] + dir + [Sep] + x, dstRoot + [Sep] + dir + [Sep] + x)] by {
      assert [dir, x] !in skips;
      PlanOfTwo(srcRoot, dstRoot, e1, e2, map[], skips);
      BlockShape(srcRoot, dstRoot, e1, map[], skips);
      NestedFileBlock(srcRoot, dstRoot, dir, x, map[], skips);
    }
    assert ResolveDestination(dstRoot, uid) == dstRoot;
  }
}

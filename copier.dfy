/** The copy pass (`copy_directory`): the destination root is resolved
    (an `smb://` location becomes its GVFS mount path), then every entry
    of the walk that is not skipped is sent to its possibly renamed
    destination. The filesystem effects are emitted as actions, in the
    order the script performs them. */
module Copier {
  import opened Text
  import opened Paths

  /** `EnsureDir(d)` is `os.makedirs(d, exist_ok=True)`; `CopyFile(s, d)`
      is `shutil.copy2(s, d)`, which copies contents and metadata. */
  datatype Action = EnsureDir(dir: string) | CopyFile(src: string, dst: string)

  const SmbScheme: string := "smb://"
  const ShareDirPrefix: string := "smb-share:server="
  const ShareSeparator: string := ",share="

  /** The per-user GVFS mount directory, `/run/user/<uid>/gvfs`. */
  function GvfsRoot(uid: nat): string {
    "/run/user/" + Decimal(uid) + "/gvfs"
  }

  /** The destination root the copy writes under: an `smb://` location
      becomes the directory GVFS mounts it at, in which every `/` after the
      scheme is spelled `,share=`; any other destination is kept. */
  function ResolveDestination(dstRoot: string, uid: nat): (r: string)
    ensures SmbScheme <= dstRoot ==>
      r == GvfsRoot(uid) + [Sep] + ShareDirPrefix
           + ReplaceChar(dstRoot[|SmbScheme|..], Sep, ShareSeparator)
    ensures !(SmbScheme <= dstRoot) ==> r == dstRoot
  {
    if SmbScheme <= dstRoot then
      Join(GvfsRoot(uid), ShareDirPrefix + ReplaceChar(dstRoot[|SmbScheme|..], Sep, ShareSeparator))
    else dstRoot
  }

  /** An `smb://host/share` location resolves to the mount directory named
      after that host and share. */
  lemma SmbHostShare(host: string, share: string, uid: nat)
    requires Sep !in host && Sep !in share
    ensures ResolveDestination(SmbScheme + host + [Sep] + share, uid)
      == GvfsRoot(uid) + "/" + ShareDirPrefix + host + ShareSeparator + share
  {
    var dst := SmbScheme + host + [Sep] + share;
    assert SmbScheme <= dst;
    assert dst[|SmbScheme|..] == host + [Sep] + share;
    ReplaceHostShare(host, share);
    var g := GvfsRoot(uid);
    calc {
      ResolveDestination(dst, uid);
      g + [Sep] + ShareDirPrefix + ReplaceChar(dst[|SmbScheme|..], Sep, ShareSeparator);
      g + [Sep] + ShareDirPrefix + (host + ShareSeparator + share);
      g + "/" + ShareDirPrefix + host + ShareSeparator + share;
    }
  }

  /** Only the `/` between host and share is respelled. */
  lemma ReplaceHostShare(host: string, share: string)
    requires Sep !in host && Sep !in share
    ensures ReplaceChar(host + [Sep] + share, Sep, ShareSeparator) == host + ShareSeparator + share
  {
    ReplaceCharAppend(host + [Sep], share, Sep, ShareSeparator);
    ReplaceCharAppend(host, [Sep], Sep, ShareSeparator);
    assert ReplaceChar([Sep], Sep, ShareSeparator) == ShareSeparator + ReplaceChar([], Sep, ShareSeparator);
  }

  /** The mount path of an `smb://` location is one directory directly in
      the GVFS mount directory, whatever path the location names. */
  lemma SmbMountIsOneEntry(dstRoot: string, uid: nat)
    requires SmbScheme <= dstRoot
    ensures Dirname(ResolveDestination(dstRoot, uid)) == GvfsRoot(uid)
  {
    var g := GvfsRoot(uid);
    var name := ShareDirPrefix + ReplaceChar(dstRoot[|SmbScheme|..], Sep, ShareSeparator);
    assert Sep !in ShareDirPrefix;
    assert g[|g| - 1] == 's';
    assert g + [Sep] + ShareDirPrefix + ReplaceChar(dstRoot[|SmbScheme|..], Sep, ShareSeparator)
      == g + [Sep] + name;
    DirnameSplit(g, name);
  }

  /** `rename_map.get(rel, rel)`. */
  function ResolveRel(p: Path, renames: map<Path, Path>): Path {
    if p in renames then renames[p] else p
  }

  /** Where an entry is written: the resolved relative path under the
      destination root. */
  function Destination(dstRoot: string, p: Path, renames: map<Path, Path>): string {
    Join(dstRoot, Render(ResolveRel(p, renames)))
  }

  /** Where an entry is read from. */
  function SourcePath(srcRoot: string, p: Path): string {
    Join(srcRoot, Render(p))
  }

  /** What one entry of the walk makes the script do. */
  function EntryActions(srcRoot: string, dstRoot: string, e: Entry,
                        renames: map<Path, Path>, skips: seq<Path>): seq<Action>
  {
    if e.path in skips then []
    else
      var dest := Destination(dstRoot, e.path, renames);
      [EnsureDir(Dirname(dest))]
      + match e.kind
        case File => [CopyFile(SourcePath(srcRoot, e.path), dest)]
        case Directory => [EnsureDir(dest)]
        case Other => []
  }

  /** The actions of each entry of the walk, in walk order. */
  function Blocks(srcRoot: string, dstRoot: string, entries: seq<Entry>,
                  renames: map<Path, Path>, skips: seq<Path>): seq<seq<Action>>
  {
    seq(|entries|, i requires 0 <= i < |entries| =>
      EntryActions(srcRoot, dstRoot, entries[i], renames, skips))
  }

  /** What the whole walk makes the script do, under an already resolved
      destination root. */
  function CopyPlan(srcRoot: string, dstRoot: string, entries: seq<Entry>,
                    renames: map<Path, Path>, skips: seq<Path>): seq<Action>
  {
    Concat(Blocks(srcRoot, dstRoot, entries, renames, skips))
  }

  /** The blocks one after the other. */
  function Concat<T>(blocks: seq<seq<T>>): seq<T>
    decreases |blocks|
  {
    if blocks == [] then [] else Concat(blocks[..|blocks| - 1]) + blocks[|blocks| - 1]
  }

  lemma {:induction false} ConcatAppend<T>(a: seq<seq<T>>, b: seq<seq<T>>)
    ensures Concat(a + b) == Concat(a) + Concat(b)
    decreases |b|
  {
    if b == [] {
      assert a + b == a;
    } else {
      var n := |b|;
      assert (a + b)[..|a + b| - 1] == a + b[..n - 1];
      assert (a + b)[|a + b| - 1] == b[n - 1];
      ConcatAppend(a, b[..n - 1]);
    }
  }

  /** The blocks of a walk split where the walk is split. */
  lemma BlocksAppend(srcRoot: string, dstRoot: string, a: seq<Entry>, b: seq<Entry>,
                     renames: map<Path, Path>, skips: seq<Path>)
    ensures Blocks(srcRoot, dstRoot, a + b, renames, skips)
      == Blocks(srcRoot, dstRoot, a, renames, skips) + Blocks(srcRoot, dstRoot, b, renames, skips)
  {
    var ba := Blocks(srcRoot, dstRoot, a, renames, skips);
    var bb := Blocks(srcRoot, dstRoot, b, renames, skips);
    var l := Blocks(srcRoot, dstRoot, a + b, renames, skips);
    var r := ba + bb;
    assert |l| == |r|;
    forall i | 0 <= i < |l| ensures l[i] == r[i] {
      assert l[i] == EntryActions(srcRoot, dstRoot, (a + b)[i], renames, skips);
      if i < |a| {
        assert (a + b)[i] == a[i];
        assert r[i] == ba[i];
      } else {
        assert (a + b)[i] == b[i - |a|];
        assert r[i] == bb[i - |a|];
      }
    }
  }

  /** `copy_directory`: resolves the destination root once, then emits the
      actions for each entry that is not skipped. */
  method CopyDirectory(srcRoot: string, dstRoot: string, uid: nat, entries: seq<Entry>,
                       renames: map<Path, Path>, skips: seq<Path>)
    returns (actions: seq<Action>)
    ensures actions == CopyPlan(srcRoot, ResolveDestination(dstRoot, uid), entries, renames, skips)
  {
    var root := ResolveDestination(dstRoot, uid);
    actions := [];
    for i := 0 to |entries|
      invariant actions == CopyPlan(srcRoot, root, entries[..i], renames, skips)
    {
      CopyPlanExtend(srcRoot, root, entries, renames, skips, i);
      var relPath := entries[i].path;
      if relPath in skips {
        continue;
      }
      var destRel := if relPath in renames then renames[relPath] else relPath;
      var srcPath := Join(srcRoot, Render(relPath));
      var destPath := Join(root, Render(destRel));
      actions := actions + [EnsureDir(Dirname(destPath))];
      match entries[i].kind {
        case File =>
          actions := actions + [CopyFile(srcPath, destPath)];
        case Directory =>
          actions := actions + [EnsureDir(destPath)];
        case Other =>
      }
    }
    assert entries[..|entries|] == entries;
  }

  /** The plan of a walk is the plan of its first part followed by the plan
      of the rest. */
  lemma CopyPlanAppend(srcRoot: string, dstRoot: string, a: seq<Entry>,
                       b: seq<Entry>, renames: map<Path, Path>, skips: seq<Path>)
    ensures CopyPlan(srcRoot, dstRoot, a + b, renames, skips)
      == CopyPlan(srcRoot, dstRoot, a, renames, skips) + CopyPlan(srcRoot, dstRoot, b, renames, skips)
  {
    BlocksAppend(srcRoot, dstRoot, a, b, renames, skips);
    ConcatAppend(Blocks(srcRoot, dstRoot, a, renames, skips), Blocks(srcRoot, dstRoot, b, renames, skips));
  }

  /** The plan of one entry is its block. */
  lemma CopyPlanSingle(srcRoot: string, dstRoot: string, e: Entry,
                       renames: map<Path, Path>, skips: seq<Path>)
    ensures CopyPlan(srcRoot, dstRoot, [e], renames, skips)
      == EntryActions(srcRoot, dstRoot, e, renames, skips)
  {
    var bs := Blocks(srcRoot, dstRoot, [e], renames, skips);
    assert bs[..0] == [];
    assert Concat(bs) == Concat(bs[..0]) + bs[0];
  }

  /** One more entry appends its block to the plan. */
  lemma CopyPlanExtend(srcRoot: string, dstRoot: string, entries: seq<Entry>,
                       renames: map<Path, Path>, skips: seq<Path>, i: nat)
    requires i < |entries|
    ensures CopyPlan(srcRoot, dstRoot, entries[..i + 1], renames, skips)
      == CopyPlan(srcRoot, dstRoot, entries[..i], renames, skips)
         + EntryActions(srcRoot, dstRoot, entries[i], renames, skips)
  {
    assert entries[..i + 1] == entries[..i] + [entries[i]];
    CopyPlanAppend(srcRoot, dstRoot, entries[..i], [entries[i]], renames, skips);
    CopyPlanSingle(srcRoot, dstRoot, entries[i], renames, skips);
  }

  /** The entries of a walk that are not on the skip list, in walk order. */
  function Kept(entries: seq<Entry>, skips: seq<Path>): seq<Entry>
    decreases |entries|
  {
    if entries == [] then []
    else Kept(entries[..|entries| - 1], skips)
         + (if entries[|entries| - 1].path in skips then [] else [entries[|entries| - 1]])
  }

  /** The actions of one entry, spelled out. */
  lemma BlockShape(srcRoot: string, dstRoot: string, e: Entry,
                   renames: map<Path, Path>, skips: seq<Path>)
    ensures var blk := EntryActions(srcRoot, dstRoot, e, renames, skips);
      var dest := Destination(dstRoot, e.path, renames);
      if e.path in skips then blk == []
      else
        && |blk| == (if e.kind.Other? then 1 else 2)
        && blk[0] == EnsureDir(Dirname(dest))
        && (e.kind.File? ==> blk[1] == CopyFile(SourcePath(srcRoot, e.path), dest))
        && (e.kind.Directory? ==> blk[1] == EnsureDir(dest))
  {
  }

  /** Skipped entries contribute nothing: the plan is the plan of the kept
      entries alone. */
  lemma {:induction false} SkippedEmitNothing(srcRoot: string, dstRoot: string, entries: seq<Entry>,
                                              renames: map<Path, Path>, skips: seq<Path>)
    ensures CopyPlan(srcRoot, dstRoot, entries, renames, skips)
      == CopyPlan(srcRoot, dstRoot, Kept(entries, skips), renames, skips)
    decreases |entries|
  {
    if entries != [] {
      var n := |entries|;
      var init := entries[..n - 1];
      var e := entries[n - 1];
      CopyPlanExtend(srcRoot, dstRoot, entries, renames, skips, n - 1);
      assert entries[..n] == entries;
      SkippedEmitNothing(srcRoot, dstRoot, init, renames, skips);
      var tail := if e.path in skips then [] else [e];
      assert Kept(entries, skips) == Kept(init, skips) + tail;
      CopyPlanAppend(srcRoot, dstRoot, Kept(init, skips), tail, renames, skips);
      BlockShape(srcRoot, dstRoot, e, renames, skips);
      if e.path in skips {
        assert CopyPlan(srcRoot, dstRoot, tail, renames, skips) == [];
      } else {
        CopyPlanSingle(srcRoot, dstRoot, e, renames, skips);
      }
    }
  }

  /** Where the actions of entry `i` start in the plan. */
  function Offset(srcRoot: string, dstRoot: string, entries: seq<Entry>,
                  renames: map<Path, Path>, skips: seq<Path>, i: nat): nat
    requires i <= |entries|
  {
    |CopyPlan(srcRoot, dstRoot, entries[..i], renames, skips)|
  }

  /** Entry `i` of the walk: a skipped entry emits nothing; any other one
      first ensures the parent of its destination, then copies the file to
      it or creates it as a directory, at the place of the entry in the
      walk. */
  lemma EntryInPlan(srcRoot: string, dstRoot: string, entries: seq<Entry>,
                    renames: map<Path, Path>, skips: seq<Path>, i: nat)
    requires i < |entries|
    ensures var plan := CopyPlan(srcRoot, dstRoot, entries, renames, skips);
      var off := Offset(srcRoot, dstRoot, entries, renames, skips, i);
      var next := Offset(srcRoot, dstRoot, entries, renames, skips, i + 1);
      var e := entries[i];
      var dest := Destination(dstRoot, e.path, renames);
      && next <= |plan|
      && if e.path in skips then
        next == off
      else
        && next == off + (if e.kind.Other? then 1 else 2)
        && plan[off] == EnsureDir(Dirname(dest))
        && (e.kind.File? ==> plan[off + 1] == CopyFile(SourcePath(srcRoot, e.path), dest))
        && (e.kind.Directory? ==> plan[off + 1] == EnsureDir(dest))
  {
    var e := entries[i];
    CopyPlanExtend(srcRoot, dstRoot, entries, renames, skips, i);
    assert entries == entries[..i + 1] + entries[i + 1..];
    CopyPlanAppend(srcRoot, dstRoot, entries[..i + 1], entries[i + 1..], renames, skips);
    BlockShape(srcRoot, dstRoot, e, renames, skips);
    var p0 := CopyPlan(srcRoot, dstRoot, entries[..i], renames, skips);
    var blk := EntryActions(srcRoot, dstRoot, e, renames, skips);
    var rest := CopyPlan(srcRoot, dstRoot, entries[i + 1..], renames, skips);
    var plan := p0 + blk + rest;
    assert CopyPlan(srcRoot, dstRoot, entries, renames, skips) == plan;
    assert Offset(srcRoot, dstRoot, entries, renames, skips, i) == |p0|;
    assert Offset(srcRoot, dstRoot, entries, renames, skips, i + 1) == |p0| + |blk|;
    if |blk| > 0 {
      assert plan[|p0|] == blk[0];
    }
    if |blk| > 1 {
      assert plan[|p0| + 1] == blk[1];
    }
  }

  /** Every file copy comes right after the action that ensures the
      directory it is copied into. */
  lemma {:induction false} CopyAfterParent(srcRoot: string, dstRoot: string, entries: seq<Entry>,
                                           renames: map<Path, Path>, skips: seq<Path>)
    ensures var plan := CopyPlan(srcRoot, dstRoot, entries, renames, skips);
      forall k :: 0 <= k < |plan| && plan[k].CopyFile? ==>
        1 <= k && plan[k - 1] == EnsureDir(Dirname(plan[k].dst))
    decreases |entries|
  {
    if entries != [] {
      var n := |entries|;
      var init := entries[..n - 1];
      var e := entries[n - 1];
      CopyPlanExtend(srcRoot, dstRoot, entries, renames, skips, n - 1);
      assert entries[..n] == entries;
      CopyAfterParent(srcRoot, dstRoot, init, renames, skips);
      BlockShape(srcRoot, dstRoot, e, renames, skips);
      var p0 := CopyPlan(srcRoot, dstRoot, init, renames, skips);
      var blk := EntryActions(srcRoot, dstRoot, e, renames, skips);
      var plan := p0 + blk;
      forall k | 0 <= k < |plan| && plan[k].CopyFile?
        ensures 1 <= k && plan[k - 1] == EnsureDir(Dirname(plan[k].dst))
      {
        if k < |p0| {
          assert plan[k] == p0[k];
          assert plan[k - 1] == p0[k - 1];
        } else {
          assert plan[k] == blk[k - |p0|];
          assert plan[k - 1] == blk[k - 1 - |p0|];
        }
      }
    }
  }

  /** Every file copy in the plan is that of a kept file entry, read from
      its source path and written to its destination. */
  lemma {:induction false} CopiesComeFromEntries(srcRoot: string, dstRoot: string, entries: seq<Entry>,
                                                 renames: map<Path, Path>, skips: seq<Path>)
    ensures var plan := CopyPlan(srcRoot, dstRoot, entries, renames, skips);
      forall k :: 0 <= k < |plan| && plan[k].CopyFile? ==>
        exists i :: (0 <= i < |entries| && CopiedBy(srcRoot, dstRoot, entries[i], renames, skips, plan[k]))
    decreases |entries|
  {
    if entries != [] {
      var n := |entries|;
      var init := entries[..n - 1];
      var e := entries[n - 1];
      CopyPlanExtend(srcRoot, dstRoot, entries, renames, skips, n - 1);
      assert entries[..n] == entries;
      CopiesComeFromEntries(srcRoot, dstRoot, init, renames, skips);
      var p0 := CopyPlan(srcRoot, dstRoot, init, renames, skips);
      var blk := EntryActions(srcRoot, dstRoot, e, renames, skips);
      BlockCopies(srcRoot, dstRoot, e, renames, skips);
      var plan := p0 + blk;
      assert CopyPlan(srcRoot, dstRoot, entries, renames, skips) == plan;
      forall k | 0 <= k < |plan| && plan[k].CopyFile?
        ensures exists i :: (0 <= i < n && CopiedBy(srcRoot, dstRoot, entries[i], renames, skips, plan[k]))
      {
        if k < |p0| {
          CopyFromInit(srcRoot, dstRoot, entries, init, renames, skips, p0, blk, k);
        } else {
          var j := k - |p0|;
          assert plan[k] == blk[j];
          assert CopiedBy(srcRoot, dstRoot, entries[n - 1], renames, skips, plan[k]);
        }
      }
    }
  }

  /** A copy made by an entry before the last one is made by an entry of
      the whole walk. */
  lemma CopyFromInit(srcRoot: string, dstRoot: string, entries: seq<Entry>, init: seq<Entry>,
                     renames: map<Path, Path>, skips: seq<Path>,
                     p0: seq<Action>, blk: seq<Action>, k: nat)
    requires entries != [] && init == entries[..|entries| - 1] && k < |p0|
    requires exists i :: 0 <= i < |init| && CopiedBy(srcRoot, dstRoot, init[i], renames, skips, p0[k])
    ensures exists i :: 0 <= i < |entries| && CopiedBy(srcRoot, dstRoot, entries[i], renames, skips, (p0 + blk)[k])
  {
    var i :| 0 <= i < |init| && CopiedBy(srcRoot, dstRoot, init[i], renames, skips, p0[k]);
    assert entries[i] == init[i];
    assert (p0 + blk)[k] == p0[k];
  }

  /** The only copy in an entry's actions is the one that entry makes. */
  lemma BlockCopies(srcRoot: string, dstRoot: string, e: Entry,
                    renames: map<Path, Path>, skips: seq<Path>)
    ensures var blk := EntryActions(srcRoot, dstRoot, e, renames, skips);
      forall j :: 0 <= j < |blk| && blk[j].CopyFile? ==> CopiedBy(srcRoot, dstRoot, e, renames, skips, blk[j])
  {
    BlockShape(srcRoot, dstRoot, e, renames, skips);
  }

  /** `a` is the copy that entry `e` makes: `e` is a kept file and `a`
      reads its source path and writes its destination. */
  predicate CopiedBy(srcRoot: string, dstRoot: string, e: Entry,
                     renames: map<Path, Path>, skips: seq<Path>, a: Action)
  {
    && e.path !in skips && e.kind.File?
    && a == CopyFile(SourcePath(srcRoot, e.path), Destination(dstRoot, e.path, renames))
  }
}

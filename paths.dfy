/** Paths as the copier sees them: the `posixpath` operations `join` and
    `dirname` on strings, and relative paths below the source root as
    sequences of name segments, which `os.walk` yields one per entry. */
module Paths {
  import opened Text

  const Sep: char := '/'

  /** A path relative to the source root, one name per segment; the last
      segment is the entry's own name. */
  type Path = seq<string>

  /** What `os.path.isfile` / `os.path.isdir` report for an entry's source
      path when the copy pass reaches it: a regular file, a directory, or
      neither (for example a dangling link). */
  datatype Kind = File | Directory | Other

  /** One node of the walk: its relative path and its kind. */
  datatype Entry = Entry(path: Path, kind: Kind)

  /** A directory-entry name: never empty and never holding a separator. */
  predicate ValidSegment(name: string) {
    name != [] && Sep !in name
  }

  predicate ValidPath(p: Path) {
    |p| >= 1 && forall i :: 0 <= i < |p| ==> ValidSegment(p[i])
  }

  /** The entries of a walk: every relative path is well formed. */
  predicate WellFormed(entries: seq<Entry>) {
    forall i :: 0 <= i < |entries| ==> ValidPath(entries[i].path)
  }

  /** A walk visits every path once. */
  predicate Distinct(entries: seq<Entry>) {
    forall i, j :: 0 <= i < j < |entries| ==> entries[i].path != entries[j].path
  }

  function Leaf(p: Path): string
    requires |p| >= 1
  {
    p[|p| - 1]
  }

  function Parent(p: Path): Path
    requires |p| >= 1
  {
    p[..|p| - 1]
  }

  /** `os.path.join(a, b)`. */
  function Join(a: string, b: string): string {
    if b != [] && b[0] == Sep then b
    else if a == [] || a[|a| - 1] == Sep then a + b
    else a + [Sep] + b
  }

  /** `os.path.dirname(p)`: everything before the last separator, with the
      separators that end it removed unless nothing else is left. */
  function Dirname(p: string): string {
    var head := p[..RFind(p, Sep) + 1];
    if head != [] && !AllChar(head, Sep) then RStrip(head, Sep) else head
  }

  /** The directory `dirname` reports for a bare name joined onto `root`. */
  function StripTrailingSeps(root: string): string {
    if AllChar(root, Sep) then root else RStrip(root, Sep)
  }

  /** The string form of a relative path, as `os.path.relpath` gives it. */
  function Render(p: Path): string
    decreases |p|
  {
    if |p| == 0 then []
    else if |p| == 1 then p[0]
    else Render(p[..|p| - 1]) + [Sep] + p[|p| - 1]
  }

  /** A rendered relative path is not empty, and neither starts nor ends
      with a separator. */
  lemma {:induction false} RenderShape(p: Path)
    requires ValidPath(p)
    ensures Render(p) != []
    ensures Render(p)[0] != Sep && Render(p)[|Render(p)| - 1] != Sep
    decreases |p|
  {
    if |p| == 1 {
      assert p[0] in p;
    } else {
      var q := p[..|p| - 1];
      ParentValid(p);
      RenderShape(q);
      assert ValidSegment(p[|p| - 1]);
      var s := Render(q) + [Sep] + p[|p| - 1];
      assert s[0] == Render(q)[0];
      assert s[|s| - 1] == p[|p| - 1][|p[|p| - 1]| - 1];
      assert p[|p| - 1][|p[|p| - 1]| - 1] in p[|p| - 1];
    }
  }

  /** Joining a root onto a longer relative path extends the joined
      parent by one separator and the name. */
  lemma JoinExtend(root: string, x: string, name: string)
    requires x != [] && x[0] != Sep
    ensures Join(root, x + [Sep] + name) == Join(root, x) + [Sep] + name
  {
    var tail := x + [Sep] + name;
    assert tail[0] == x[0];
    if root == [] || root[|root| - 1] == Sep {
      assert Join(root, tail) == root + tail;
      assert root + tail == (root + x) + [Sep] + name;
    } else {
      assert Join(root, tail) == root + [Sep] + tail;
      assert root + [Sep] + tail == (root + [Sep] + x) + [Sep] + name;
    }
  }

  /** The parent directory of a relative path, as `dirname` computes it
      from the rendered string, is the rendered parent path. */
  lemma DirnameRender(p: Path)
    requires ValidPath(p)
    ensures Dirname(Render(p)) == Render(Parent(p))
  {
    var leaf := Leaf(p);
    assert ValidSegment(leaf);
    if |p| == 1 {
      RFindAppend([], leaf, Sep);
      assert [] + leaf == leaf;
      assert Parent(p) == [];
    } else {
      var q := Parent(p);
      ParentValid(p);
      RenderShape(q);
      DirnameSplit(Render(q), leaf);
    }
  }

  /** `dirname` of `x/name`, where `x` does not end with a separator and
      is not made of separators, is `x`. */
  lemma DirnameSplit(x: string, name: string)
    requires x != [] && x[|x| - 1] != Sep && Sep !in name
    ensures Dirname(x + [Sep] + name) == x
  {
    var s := x + [Sep] + name;
    RFindAppend(x + [Sep], name, Sep);
    assert s == (x + [Sep]) + name;
    var head := s[..RFind(s, Sep) + 1];
    assert head == x + [Sep];
    assert head[|x| - 1] == x[|x| - 1];
    assert !AllChar(head, Sep);
    assert RStrip(head, Sep) == RStrip(x, Sep);
  }

  /** `dirname` of a name joined onto `root` is `root` without the
      separators that end it (or `root` itself when it is only separators). */
  lemma DirnameJoinName(root: string, name: string)
    requires ValidSegment(name)
    ensures Dirname(Join(root, name)) == StripTrailingSeps(root)
  {
    assert name[0] in name;
    if root == [] {
      RFindAppend([], name, Sep);
      assert [] + name == name;
    } else if root[|root| - 1] == Sep {
      assert Join(root, name) == root + name;
      RFindAppend(root, name, Sep);
      assert (root + name)[..|root|] == root;
    } else {
      assert Join(root, name) == root + [Sep] + name;
      assert !AllChar(root, Sep);
      DirnameSplit(root, name);
    }
  }

  /** The directory `dirname` reports for an entry's destination is the
      root joined with the entry's parent path (the parent's own rename, if
      any, is not applied), or the root itself (without its trailing
      separators) for an entry at the top level. */
  lemma DirnameOfJoin(root: string, p: Path)
    requires ValidPath(p)
    ensures Dirname(Join(root, Render(p))) ==
      if |p| == 1 then StripTrailingSeps(root) else Join(root, Render(Parent(p)))
  {
    var leaf := Leaf(p);
    assert ValidSegment(leaf);
    if |p| == 1 {
      DirnameJoinName(root, leaf);
    } else {
      var q := Parent(p);
      ParentValid(p);
      RenderShape(q);
      assert Render(p) == Render(q) + [Sep] + leaf;
      DirnameJoinNested(root, Render(q), leaf);
    }
  }

  /** `dirname` of `root` joined with `x/name` is `root` joined with `x`. */
  lemma DirnameJoinNested(root: string, x: string, name: string)
    requires x != [] && x[0] != Sep && x[|x| - 1] != Sep && Sep !in name
    ensures Dirname(Join(root, x + [Sep] + name)) == Join(root, x)
  {
    JoinExtend(root, x, name);
    var j := Join(root, x);
    assert j[|j| - 1] == x[|x| - 1];
    DirnameSplit(j, name);
  }

  lemma ParentValid(p: Path)
    requires ValidPath(p) && |p| > 1
    ensures ValidPath(Parent(p))
  {
    var q := Parent(p);
    forall i | 0 <= i < |q| ensures ValidSegment(q[i]) {
      assert q[i] == p[i];
    }
  }

  /** Replacing the last name of a relative path and rendering it gives
      what `os.path.join(os.path.dirname(rel), name)` gives. */
  lemma RenderReplaceLeaf(p: Path, name: string)
    requires ValidPath(p) && ValidSegment(name)
    ensures Render(Parent(p) + [name]) == Join(Dirname(Render(p)), name)
  {
    DirnameRender(p);
    var q := Parent(p);
    var r := q + [name];
    assert r[..|r| - 1] == q;
    if |p| > 1 {
      ParentValid(p);
      RenderShape(q);
    }
  }
}

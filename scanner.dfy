/** The scan pass (`scan_directory`): for every entry of the walk whose
    name changes under sanitising, the operator's next answer decides
    whether the entry is renamed or skipped. The walk's entries and the
    operator's replies are given as sequences. */
module Scanner {
  import opened Paths
  import opened Sanitizer
  import opened Reply

  /** What the scan hands to the copier: the rename map (original relative
      path to new relative path) and the skip list, in the order the skips
      were decided. `InputExhausted` is the end of input reached at a
      prompt, which `input()` reports by raising and which ends the run. */
  datatype Scan = Scanned(renames: map<Path, Path>, skips: seq<Path>) | InputExhausted

  /** An entry gets a prompt exactly when its own name changes under
      sanitising. */
  predicate NeedsRename(p: Path)
    requires |p| >= 1
  {
    Sanitize(Leaf(p)) != Leaf(p)
  }

  /** The proposed new relative path: same parent, sanitised name. */
  function Renamed(p: Path): Path
    requires |p| >= 1
  {
    Parent(p) + [Sanitize(Leaf(p))]
  }

  /** How many prompts the entries raise, which is how many replies they
      consume. */
  function Prompts(entries: seq<Entry>): nat
    requires WellFormed(entries)
    decreases |entries|
  {
    if entries == [] then 0
    else Prompts(entries[..|entries| - 1])
         + (if NeedsRename(entries[|entries| - 1].path) then 1 else 0)
  }

  /** The tables after one more entry `p`, whose prompt (if any) gets the
      reply at position `k`. */
  function ScanStep(s: Scan, p: Path, k: nat, answers: seq<string>): Scan
    requires |p| >= 1
  {
    if s.InputExhausted? || !NeedsRename(p) then s
    else if k >= |answers| then InputExhausted
    else if Confirm(answers[k]) then Scanned(s.renames[p := Renamed(p)], s.skips)
    else Scanned(s.renames, s.skips + [p])
  }

  /** The tables after scanning `entries` in order against `answers`. */
  function ScanOf(entries: seq<Entry>, answers: seq<string>): Scan
    requires WellFormed(entries)
    decreases |entries|
  {
    if entries == [] then Scanned(map[], [])
    else
      var init := entries[..|entries| - 1];
      ScanStep(ScanOf(init, answers), entries[|entries| - 1].path, Prompts(init), answers)
  }

  lemma WellFormedPrefix(entries: seq<Entry>, k: nat)
    requires WellFormed(entries) && k <= |entries|
    ensures WellFormed(entries[..k])
  {
    forall i | 0 <= i < k ensures ValidPath(entries[..k][i].path) {
      assert entries[..k][i] == entries[i];
    }
  }

  /** `scan_directory`: one pass over the entries, filling the rename map
      and the skip list. */
  method ScanDirectory(entries: seq<Entry>, answers: seq<string>) returns (result: Scan)
    requires WellFormed(entries)
    ensures result == ScanOf(entries, answers)
  {
    var renameMap: map<Path, Path> := map[];
    var skipList: seq<Path> := [];
    var next := 0;
    for i := 0 to |entries|
      invariant next == Prompts(entries[..i])
      invariant ScanOf(entries[..i], answers) == Scanned(renameMap, skipList)
    {
      ScanOfExtend(entries, i, answers);
      var relPath := entries[i].path;
      var item := Leaf(relPath);
      var newName := SanitizeName(item);
      if newName != item {
        var newRel := Parent(relPath) + [newName];
        if next >= |answers| {
          ExhaustedPersists(entries, i + 1, answers);
          return InputExhausted;
        }
        var yes := Confirm(answers[next]);
        next := next + 1;
        if yes {
          renameMap := renameMap[relPath := newRel];
        } else {
          skipList := skipList + [relPath];
        }
      }
    }
    assert entries[..|entries|] == entries;
    result := Scanned(renameMap, skipList);
  }

  /** Scanning one more entry is one more step. */
  lemma ScanOfExtend(entries: seq<Entry>, i: nat, answers: seq<string>)
    requires WellFormed(entries) && i < |entries|
    ensures WellFormed(entries[..i]) && WellFormed(entries[..i + 1])
    ensures |entries[i].path| >= 1
    ensures Prompts(entries[..i + 1]) ==
      Prompts(entries[..i]) + (if NeedsRename(entries[i].path) then 1 else 0)
    ensures ScanOf(entries[..i + 1], answers) ==
      ScanStep(ScanOf(entries[..i], answers), entries[i].path, Prompts(entries[..i]), answers)
  {
    WellFormedPrefix(entries, i);
    WellFormedPrefix(entries, i + 1);
    assert entries[..i + 1][..i] == entries[..i];
    assert entries[..i + 1][i] == entries[i];
  }

  /** Once the replies have run out, scanning further entries does not
      recover. */
  lemma {:induction false} ExhaustedPersists(entries: seq<Entry>, k: nat, answers: seq<string>)
    requires WellFormed(entries) && k <= |entries|
    requires ScanOf(entries[..k], answers).InputExhausted?
    ensures ScanOf(entries, answers).InputExhausted?
    decreases |entries| - k
  {
    if k < |entries| {
      ScanOfExtend(entries, k, answers);
      ExhaustedPersists(entries, k + 1, answers);
    } else {
      assert entries[..k] == entries;
    }
  }

  /** The scan fails exactly when the entries raise more prompts than there
      are replies. */
  lemma {:induction false} ScanExhaustedIff(entries: seq<Entry>, answers: seq<string>)
    requires WellFormed(entries)
    ensures ScanOf(entries, answers).InputExhausted? <==> Prompts(entries) > |answers|
    decreases |entries|
  {
    if entries != [] {
      var init := entries[..|entries| - 1];
      ScanExhaustedIff(init, answers);
      PromptsMonotone(init, entries[|entries| - 1]);
    }
  }

  lemma PromptsMonotone(init: seq<Entry>, e: Entry)
    requires WellFormed(init + [e])
    ensures WellFormed(init)
    ensures Prompts(init) <= Prompts(init + [e]) <= Prompts(init) + 1
  {
    var all := init + [e];
    assert all[..|all| - 1] == init;
    forall i | 0 <= i < |init| ensures ValidPath(init[i].path) {
      assert init[i] == all[i];
    }
  }

  /** Only entries whose names change reach the tables: a rename-map key
      is such an entry and maps to its renamed path; a skip is such an
      entry too. */
  lemma {:induction false} ScanRecordsOnlyChanged(entries: seq<Entry>, answers: seq<string>)
    requires WellFormed(entries)
    requires ScanOf(entries, answers).Scanned?
    ensures forall p :: p in ScanOf(entries, answers).renames ==>
      (exists i :: 0 <= i < |entries| && entries[i].path == p)
      && NeedsRename(p) && ScanOf(entries, answers).renames[p] == Renamed(p)
    ensures forall p :: p in ScanOf(entries, answers).skips ==>
      (exists i :: 0 <= i < |entries| && entries[i].path == p) && NeedsRename(p)
    decreases |entries|
  {
    if entries != [] {
      var n := |entries|;
      ScanOfExtend(entries, n - 1, answers);
      assert entries[..n] == entries;
      var init := entries[..n - 1];
      var last := entries[n - 1].path;
      var s0 := ScanOf(init, answers);
      var s := ScanOf(entries, answers);
      ScanStepRecords(s0, last, Prompts(init), answers);
      ScanRecordsOnlyChanged(init, answers);
      forall p | p in s.renames || p in s.skips
        ensures exists i :: 0 <= i < n && entries[i].path == p
      {
        if p == last {
          assert entries[n - 1].path == p;
        } else {
          var i :| 0 <= i < |init| && init[i].path == p;
          assert entries[i] == init[i];
        }
      }
    }
  }

  /** A step adds at most its own path to either table, and only with its
      renamed path and only when its name changes. */
  lemma ScanStepRecords(s0: Scan, last: Path, k: nat, answers: seq<string>)
    requires |last| >= 1
    requires ScanStep(s0, last, k, answers).Scanned?
    ensures var s := ScanStep(s0, last, k, answers);
      && s0.Scanned?
      && (forall p :: p in s.renames ==>
            (p in s0.renames && s.renames[p] == s0.renames[p])
            || (p == last && NeedsRename(last) && s.renames[p] == Renamed(last)))
      && (forall p :: p in s.skips ==> p in s0.skips || (p == last && NeedsRename(last)))
  {
  }

  /** Every entry whose name changes lands in exactly one table, the
      rename map when its reply accepts and the skip list when it refuses;
      an entry whose name does not change lands in neither. (The walk
      yields each path once.) */
  lemma {:induction false} ScanClassifies(entries: seq<Entry>, answers: seq<string>, i: nat)
    requires WellFormed(entries) && Distinct(entries) && i < |entries|
    requires ScanOf(entries, answers).Scanned?
    ensures var s := ScanOf(entries, answers);
      var p := entries[i].path;
      if NeedsRename(p) then
        Prompts(entries[..i]) < |answers|
        && (p in s.renames <==> Confirm(answers[Prompts(entries[..i])]))
        && (p in s.skips <==> !Confirm(answers[Prompts(entries[..i])]))
      else
        p !in s.renames && p !in s.skips
    decreases |entries|
  {
    var n := |entries|;
    ScanOfExtend(entries, n - 1, answers);
    assert entries[..n] == entries;
    var init := entries[..n - 1];
    var s0 := ScanOf(init, answers);
    var k := Prompts(init);
    if i < n - 1 {
      DistinctPrefix(entries, n - 1);
      assert init[i] == entries[i];
      assert init[..i] == entries[..i];
      ScanStepOther(s0, entries[n - 1].path, k, answers, entries[i].path);
      ScanClassifies(init, answers, i);
    } else {
      assert init == entries[..i];
      ScanRecordsOnlyChanged(init, answers);
      forall j | 0 <= j < |init| ensures init[j].path != entries[i].path {
        assert init[j] == entries[j];
      }
      ScanStepLast(s0, entries[i].path, k, answers);
    }
  }

  /** No path is both renamed and skipped: after a complete scan every
      path of the walk is unchanged, renamed or skipped, and only one of
      these. */
  lemma ScanTablesDisjoint(entries: seq<Entry>, answers: seq<string>)
    requires WellFormed(entries) && Distinct(entries)
    requires ScanOf(entries, answers).Scanned?
    ensures forall p :: p in ScanOf(entries, answers).renames ==> p !in ScanOf(entries, answers).skips
  {
    var s := ScanOf(entries, answers);
    ScanRecordsOnlyChanged(entries, answers);
    forall p | p in s.renames ensures p !in s.skips {
      var i :| 0 <= i < |entries| && entries[i].path == p;
      ScanClassifies(entries, answers, i);
    }
  }

  lemma DistinctPrefix(entries: seq<Entry>, k: nat)
    requires Distinct(entries) && k <= |entries|
    ensures Distinct(entries[..k])
  {
    var init := entries[..k];
    forall a, b | 0 <= a < b < |init| ensures init[a].path != init[b].path {
      assert init[a] == entries[a] && init[b] == entries[b];
    }
  }

  /** A step for one path leaves the other paths' classification alone. */
  lemma ScanStepOther(s0: Scan, last: Path, k: nat, answers: seq<string>, p: Path)
    requires |last| >= 1 && p != last
    requires ScanStep(s0, last, k, answers).Scanned?
    ensures s0.Scanned?
    ensures p in ScanStep(s0, last, k, answers).renames <==> p in s0.renames
    ensures p in ScanStep(s0, last, k, answers).skips <==> p in s0.skips
  {
  }

  /** A step for a path not yet in either table puts it in the table its
      reply selects, or in neither when its name needs no change. */
  lemma ScanStepLast(s0: Scan, p: Path, k: nat, answers: seq<string>)
    requires |p| >= 1 && s0.Scanned? && p !in s0.renames && p !in s0.skips
    requires ScanStep(s0, p, k, answers).Scanned?
    ensures var s := ScanStep(s0, p, k, answers);
      if NeedsRename(p) then
        k < |answers|
        && (p in s.renames <==> Confirm(answers[k]))
        && (p in s.skips <==> !Confirm(answers[k]))
      else
        p !in s.renames && p !in s.skips
  {
  }

  /** The proposed path renders as `os.path.join(os.path.dirname(rel),
      new_name)` does, and is a well-formed relative path again. */
  lemma RenamedRender(p: Path)
    requires ValidPath(p)
    ensures ValidPath(Renamed(p))
    ensures Render(Renamed(p)) == Join(Dirname(Render(p)), Sanitize(Leaf(p)))
  {
    assert ValidSegment(Leaf(p));
    SanitizeKeepsSegment(Leaf(p));
    RenderReplaceLeaf(p, Sanitize(Leaf(p)));
    var r := Renamed(p);
    forall i | 0 <= i < |r| ensures ValidSegment(r[i]) {
      if i < |p| - 1 {
        assert r[i] == p[i];
      }
    }
  }
}

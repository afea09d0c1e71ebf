/** The walk of index.js:34-78 looks every entry up afresh while the files
    before it are being replaced. This module shows that the changes never
    reach an entry the walk has still to look at, so the walk handles exactly
    the files `Walker.Plan` lists for the tree as staged, in that order. */
module WalkProof {
  import opened Wrappers
  import opened Text
  import opened FileSystem
  import opened Classifier
  import opened Walker
  import opened Pipeline
  import opened WalkPosition

  /** Folding a concatenation folds the parts in turn. */
  lemma {:induction false} FoldAppend(visit: Visitor, a: seq<Path>, b: seq<Path>, run: Run)
    requires Sound(visit)
    requires forall k :: 0 <= k < |a| ==> a[k] != []
    requires forall k :: 0 <= k < |b| ==> b[k] != []
    ensures Fold(visit, a + b, run) ==
      match Fold(visit, a, run)
      case Crashed(r, e) => Crashed(r, e)
      case Done(r) => Fold(visit, b, r)
    decreases |a|
  {
    if a == [] {
      assert a + b == b;
    } else {
      assert (a + b)[0] == a[0];
      assert (a + b)[1..] == a[1..] + b;
      match visit(run, a[0])
      case Crashed(_, _) =>
      case Done(r) => FoldAppend(visit, a[1..], b, r);
    }
  }

  /** A completed step keeps whatever stood at `backup` and `temp`. */
  lemma StepTopKept(run: Run, p: Path, s: Step)
    requires p != [] && Keeps(run, p, s) && s.Done?
    ensures TopKept(run.fs, s.run.fs)
  {
    if s.run.attempts[|run.attempts|].verdict.Skipped? {
      assert !(BackupDir <= TempDir + p) by {
        assert (TempDir + p)[0] == "temp";
      }
      assert Lookup(s.run.fs, BackupDir) == Lookup(run.fs, BackupDir);
    }
  }

  /** Paths away from the stepped file's line are untouched. */
  lemma StepAway(run: Run, p: Path, s: Step, x: Path)
    requires p != [] && x <= p && Keeps(run, p, s)
    ensures forall q {:trigger Away(q, x)} :: Away(q, x) ==> Lookup(s.run.fs, q) == Lookup(run.fs, q)
  {
    forall q | Away(q, x)
      ensures Lookup(s.run.fs, q) == Lookup(run.fs, q)
    {
      assert !(q <= BackupDir + p) && !(q <= TempDir + p) by {
        assert q[0] != "backup" && q[0] != "temp";
      }
    }
  }

  /** Visiting files that all lie at or below `x` leaves every path away
      from `x` as it was, and keeps the staging folders. */
  lemma {:induction false} FoldAway(visit: Visitor, ps: seq<Path>, run: Run, x: Path)
    requires Sound(visit)
    requires x != []
    requires forall k :: 0 <= k < |ps| ==> x <= ps[k]
    ensures forall q {:trigger Away(q, x)} :: Away(q, x) ==> Lookup(Fold(visit, ps, run).run.fs, q) == Lookup(run.fs, q)
    ensures Fold(visit, ps, run).Done? ==> TopKept(run.fs, Fold(visit, ps, run).run.fs)
    decreases |ps|
  {
    if ps != [] {
      StepAway(run, ps[0], visit(run, ps[0]), x);
      match visit(run, ps[0])
      case Crashed(_, _) =>
      case Done(r) =>
        StepTopKept(run, ps[0], visit(run, ps[0]));
        FoldAway(visit, ps[1..], r, x);
    }
  }

  /** After the entry `i` (named `n`) the pending paths are away from it,
      so a step that touched only paths on its line keeps the agreement. */
  lemma AgreesNext(snap: Node, live0: Node, live1: Node, d: Node, dir: Path, i: nat)
    requires d.Dir? && Wf(d) && i < |d.entries|
    requires dir == [] || !IsReservedName(dir[0])
    requires Agrees(snap, live0, d, dir, i)
    requires forall q {:trigger Away(q, dir + [d.entries[i].name])} :: Away(q, dir + [d.entries[i].name]) ==> Lookup(live1, q) == Lookup(live0, q)
    requires TopKept(live0, live1)
    ensures Agrees(snap, live1, d, dir, i + 1)
  {
    var n := d.entries[i].name;
    var p := dir + [n];
    EntryLookup(d, i, []);
    forall q | Pending(d, dir, i + 1, q)
      ensures Lookup(live1, q) == Lookup(snap, q)
    {
      assert Pending(d, dir, i, q);
      assert q[|dir|] != n;
      assert q[0] == (if dir == [] then q[|dir|] else dir[0]);
      assert Away(q, p);
    }
  }

  /** The reserved names are no image names, whatever the root folder. */
  lemma ReservedNotImage(root: Path, n: Name)
    requires IsReservedName(n)
    ensures !MatchesImagePattern(PathText(root, [] + [n]))
  {
    assert IsSegment(n);
    PatternSeesOnlyTheName(root, [], n);
    assert forall k :: 0 <= k < |n| ==> n[k] != '.';
  }

  /** What the walk and the plan both see at entry `i`: its place in the
      staged tree, and the live tree showing it (or, for a staging folder
      at the root, showing something there). */
  lemma EntryFacts(snap: Node, d: Node, dir: Path, i: nat, live: Node)
    requires Lookup(snap, dir) == Some(d) && d.Dir? && Wf(d) && i < |d.entries|
    requires dir == [] || !IsReservedName(dir[0])
    requires Agrees(snap, live, d, dir, i)
    ensures IndexOf(d.entries, d.entries[i].name) == Some(i)
    ensures Lookup(snap, dir + [d.entries[i].name]) == Some(d.entries[i].node)
    ensures dir == [] && IsReservedName(d.entries[i].name) ==> Exists(live, dir + [d.entries[i].name])
    ensures !(dir == [] && IsReservedName(d.entries[i].name)) ==>
      Lookup(live, dir + [d.entries[i].name]) == Some(d.entries[i].node)
  {
    var n := d.entries[i].name;
    var p := dir + [n];
    EntryLookup(d, i, []);
    assert [n] + [] == [n];
    LookupBelowDescend(snap, dir, p);
    assert p[|dir|..] == [n];
    if !(dir == [] && IsReservedName(n)) {
      assert Pending(d, dir, i, p);
    } else {
      assert p == [n];
    }
  }

  /** The heart of the argument: from entry `i` on, the live walk makes the
      same calls, in the same order, as folding the visits over the planned
      files. */
  lemma {:induction false} EntriesFollowPlan(root: Path, visit: Visitor, fuel: nat, snap: Node, d: Node, dir: Path, i: nat, run: Run)
    requires Sound(visit)
    requires AtEntry(snap, fuel, d, dir, i, run.fs)
    ensures WalkEntries(root, visit, fuel, dir, Names(d.entries), i, run) == Fold(visit, Found(root, d, dir, i, true), run)
    decreases fuel, |d.entries| - i, 3
  {
    if i < |d.entries| {
      var e := d.entries[i];
      if dir == [] && IsReservedName(e.name) {
        ReservedEntryFollowsPlan(root, visit, fuel, snap, d, dir, i, run);
      } else if e.node.Dir? && !IsReservedName(e.name) {
        DirEntryFollowsPlan(root, visit, fuel, snap, d, dir, i, run);
      } else {
        FileEntryFollowsPlan(root, visit, fuel, snap, d, dir, i, run);
      }
    }
  }

  /** A staging folder at the root: the walk passes over whatever stands
      there, and the plan lists nothing for it. */
  lemma {:induction false} ReservedEntryFollowsPlan(root: Path, visit: Visitor, fuel: nat, snap: Node, d: Node, dir: Path, i: nat, run: Run)
    requires Sound(visit)
    requires AtEntry(snap, fuel, d, dir, i, run.fs) && i < |d.entries|
    requires dir == [] && IsReservedName(d.entries[i].name)
    ensures WalkEntries(root, visit, fuel, dir, Names(d.entries), i, run) == Fold(visit, Found(root, d, dir, i, true), run)
    decreases fuel, |d.entries| - i, 0
  {
    var n := d.entries[i].name;
    EntryFacts(snap, d, dir, i, run.fs);
    ReservedNotImage(root, n);
    assert Names(d.entries)[i] == n;
    PassStep(root, visit, fuel, dir, Names(d.entries), i, run);
    FoundPass(root, d, dir, i);
    AgreesNext(snap, run.fs, run.fs, d, dir, i);
    EntriesFollowPlan(root, visit, fuel, snap, d, dir, i + 1, run);
  }

  /** A directory the walk enters: its files come first, then the rest. */
  lemma {:induction false} DirEntryFollowsPlan(root: Path, visit: Visitor, fuel: nat, snap: Node, d: Node, dir: Path, i: nat, run: Run)
    requires Sound(visit)
    requires AtEntry(snap, fuel, d, dir, i, run.fs) && i < |d.entries|
    requires d.entries[i].node.Dir? && !IsReservedName(d.entries[i].name)
    ensures WalkEntries(root, visit, fuel, dir, Names(d.entries), i, run) == Fold(visit, Found(root, d, dir, i, true), run)
    decreases fuel, |d.entries| - i, 2
  {
    EnterFollowsPlan(root, visit, fuel, snap, d, dir, i, run);
    DirEntryJoin(root, visit, fuel, snap, d, dir, i, run);
  }

  /** The walk of the directory entry `i` follows that directory's plan. */
  lemma {:induction false} EnterFollowsPlan(root: Path, visit: Visitor, fuel: nat, snap: Node, d: Node, dir: Path, i: nat, run: Run)
    requires Sound(visit)
    requires AtEntry(snap, fuel, d, dir, i, run.fs) && i < |d.entries|
    requires d.entries[i].node.Dir? && !IsReservedName(d.entries[i].name)
    ensures fuel > 0
    ensures Lookup(run.fs, dir + [d.entries[i].name]) == Some(d.entries[i].node)
    ensures WalkDir(root, visit, fuel - 1, dir + [d.entries[i].name], run) ==
      Fold(visit, Found(root, d.entries[i].node, dir + [d.entries[i].name], 0, true), run)
    decreases fuel, |d.entries| - i, 1
  {
    var c, p := d.entries[i].node, dir + [d.entries[i].name];
    EnterFacts(snap, fuel, d, dir, i, run.fs);
    SubdirFollowsPlan(root, visit, fuel - 1, snap, c, p, run);
  }

  /** Once the directory entry `i` is known to follow its own plan, the
      walk from `i` follows the plan from `i`. */
  lemma {:induction false} DirEntryJoin(root: Path, visit: Visitor, fuel: nat, snap: Node, d: Node, dir: Path, i: nat, run: Run)
    requires Sound(visit)
    requires AtEntry(snap, fuel, d, dir, i, run.fs) && i < |d.entries| && fuel > 0
    requires d.entries[i].node.Dir? && !IsReservedName(d.entries[i].name)
    requires Lookup(run.fs, dir + [d.entries[i].name]) == Some(d.entries[i].node)
    requires WalkDir(root, visit, fuel - 1, dir + [d.entries[i].name], run) ==
      Fold(visit, Found(root, d.entries[i].node, dir + [d.entries[i].name], 0, true), run)
    ensures WalkEntries(root, visit, fuel, dir, Names(d.entries), i, run) == Fold(visit, Found(root, d, dir, i, true), run)
    decreases fuel, |d.entries| - i, 1
  {
    var p := dir + [d.entries[i].name];
    assert Names(d.entries)[i] == d.entries[i].name;
    DirStep(root, visit, fuel, dir, Names(d.entries), i, run, p, d.entries[i].node);
    FoldAfterSubdir(root, visit, d, dir, i, run);
    var inner := WalkDir(root, visit, fuel - 1, p, run);
    if inner.Done? {
      RestFollowsPlan(root, visit, fuel, snap, d, dir, i, run, inner.run);
    }
  }

  /** The walk at a directory entry it enters: the walk of that directory,
      then the remaining entries. */
  lemma DirStep(root: Path, visit: Visitor, fuel: nat, dir: Path, names: seq<Name>, i: nat, run: Run, p: Path, c: Node)
    requires Sound(visit)
    requires i < |names| && !IsReservedName(names[i]) && fuel > 0
    requires p == dir + [names[i]]
    requires Lookup(run.fs, p) == Some(c) && c.Dir?
    ensures WalkEntries(root, visit, fuel, dir, names, i, run) ==
      match WalkDir(root, visit, fuel - 1, p, run)
      case Crashed(r, e) => Crashed(r, e)
      case Done(r) => WalkEntries(root, visit, fuel, dir, names, i + 1, r)
  {
  }

  /** Once the directory entry `i` is done, the remaining entries follow
      the rest of the plan. */
  lemma {:induction false} RestFollowsPlan(root: Path, visit: Visitor, fuel: nat, snap: Node, d: Node, dir: Path, i: nat, run: Run, r: Run)
    requires Sound(visit)
    requires AtEntry(snap, fuel, d, dir, i, run.fs) && i < |d.entries|
    requires d.entries[i].node.Dir? && !IsReservedName(d.entries[i].name)
    requires Fold(visit, Found(root, d.entries[i].node, dir + [d.entries[i].name], 0, true), run) == Done(r)
    ensures WalkEntries(root, visit, fuel, dir, Names(d.entries), i + 1, r) == Fold(visit, Found(root, d, dir, i + 1, true), r)
    decreases fuel, |d.entries| - i, 0
  {
    var p := dir + [d.entries[i].name];
    FoundBelow(root, d.entries[i].node, p, 0, true);
    FoldAway(visit, Found(root, d.entries[i].node, p, 0, true), run, p);
    AgreesNext(snap, run.fs, r.fs, d, dir, i);
    EntriesFollowPlan(root, visit, fuel, snap, d, dir, i + 1, r);
  }

  /** The walk of a directory the walk enters follows its part of the
      plan. */
  lemma {:induction false} SubdirFollowsPlan(root: Path, visit: Visitor, fuel: nat, snap: Node, c: Node, p: Path, run: Run)
    requires Sound(visit)
    requires AtEntry(snap, fuel, c, p, 0, run.fs)
    requires Lookup(run.fs, p) == Some(c)
    ensures WalkDir(root, visit, fuel, p, run) == Fold(visit, Found(root, c, p, 0, true), run)
    decreases fuel, |c.entries| + 1, 0
  {
    EntriesFollowPlan(root, visit, fuel, snap, c, p, 0, run);
    WalkDirLists(root, visit, fuel, p, run, c);
  }

  /** `processDirectory` of a directory walks the entries it lists. */
  lemma WalkDirLists(root: Path, visit: Visitor, fuel: nat, p: Path, run: Run, c: Node)
    requires Sound(visit)
    requires Lookup(run.fs, p) == Some(c) && c.Dir?
    ensures WalkDir(root, visit, fuel, p, run) == WalkEntries(root, visit, fuel, p, Names(c.entries), 0, run)
  {
    assert ReadDir(run.fs, p) == Ok(Names(c.entries));
  }

  /** The plan of `d` from a directory entry on: that directory's files,
      then the rest. */
  lemma {:induction false} FoldAfterSubdir(root: Path, visit: Visitor, d: Node, dir: Path, i: nat, run: Run)
    requires Sound(visit)
    requires d.Dir? && i < |d.entries|
    requires d.entries[i].node.Dir? && !IsReservedName(d.entries[i].name)
    ensures Fold(visit, Found(root, d, dir, i, true), run) ==
      match Fold(visit, Found(root, d.entries[i].node, dir + [d.entries[i].name], 0, true), run)
      case Crashed(r, e) => Crashed(r, e)
      case Done(r) => Fold(visit, Found(root, d, dir, i + 1, true), r)
  {
    var here := Found(root, d.entries[i].node, dir + [d.entries[i].name], 0, true);
    var rest := Found(root, d, dir, i + 1, true);
    assert Found(root, d, dir, i, true) == here + rest;
    FoldAppend(visit, here, rest, run);
  }

  /** What holds on entering the directory entry `i`: the live tree shows
      it, it is lower than `d`, and the agreement carries over to it. */
  lemma EnterFacts(snap: Node, fuel: nat, d: Node, dir: Path, i: nat, live: Node)
    requires AtEntry(snap, fuel, d, dir, i, live) && i < |d.entries|
    requires d.entries[i].node.Dir? && !IsReservedName(d.entries[i].name)
    ensures fuel > 0
    ensures Lookup(live, dir + [d.entries[i].name]) == Some(d.entries[i].node)
    ensures AtEntry(snap, fuel - 1, d.entries[i].node, dir + [d.entries[i].name], 0, live)
  {
    EntryFacts(snap, d, dir, i, live);
    AgreesChild(snap, live, d, dir, i);
    assert Height(d.entries[i].node) < Height(d);
    assert (dir + [d.entries[i].name])[0] == (if dir == [] then d.entries[i].name else dir[0]);
  }

  /** Entering the directory entry `i`: the live tree agrees with the
      staged one on everything the walk of that directory will reach. */
  lemma AgreesChild(snap: Node, live: Node, d: Node, dir: Path, i: nat)
    requires d.Dir? && Wf(d) && i < |d.entries| && d.entries[i].node.Dir?
    requires dir == [] || !IsReservedName(dir[0])
    requires !IsReservedName(d.entries[i].name)
    requires Agrees(snap, live, d, dir, i)
    ensures Agrees(snap, live, d.entries[i].node, dir + [d.entries[i].name], 0)
  {
    var n := d.entries[i].name;
    var p := dir + [n];
    EntryLookup(d, i, []);
    forall q | Pending(d.entries[i].node, p, 0, q)
      ensures Pending(d, dir, i, q)
    {
      assert q[..|dir|] == q[..|p|][..|dir|];
      assert q[|dir|] == n;
      assert q[0] == (if dir == [] then n else dir[0]);
    }
  }

  /** A file, or a staging folder below the root: the walk visits the file
      when the plan lists it, and passes over everything else. */
  lemma {:induction false} FileEntryFollowsPlan(root: Path, visit: Visitor, fuel: nat, snap: Node, d: Node, dir: Path, i: nat, run: Run)
    requires Sound(visit)
    requires AtEntry(snap, fuel, d, dir, i, run.fs) && i < |d.entries|
    requires !(dir == [] && IsReservedName(d.entries[i].name))
    requires !(d.entries[i].node.Dir? && !IsReservedName(d.entries[i].name))
    ensures WalkEntries(root, visit, fuel, dir, Names(d.entries), i, run) == Fold(visit, Found(root, d, dir, i, true), run)
    decreases fuel, |d.entries| - i, 1
  {
    if d.entries[i].node.File? && Accepted(root, dir + [d.entries[i].name], true) {
      VisitedFollowsPlan(root, visit, fuel, snap, d, dir, i, run);
    } else {
      PassedFollowsPlan(root, visit, fuel, snap, d, dir, i, run);
    }
  }

  /** A file the file tests reject, or a staging folder below the root:
      neither the walk nor the plan does anything with it. */
  lemma {:induction false} PassedFollowsPlan(root: Path, visit: Visitor, fuel: nat, snap: Node, d: Node, dir: Path, i: nat, run: Run)
    requires Sound(visit)
    requires AtEntry(snap, fuel, d, dir, i, run.fs) && i < |d.entries|
    requires !(dir == [] && IsReservedName(d.entries[i].name))
    requires !(d.entries[i].node.Dir? && !IsReservedName(d.entries[i].name))
    requires !(d.entries[i].node.File? && Accepted(root, dir + [d.entries[i].name], true))
    ensures WalkEntries(root, visit, fuel, dir, Names(d.entries), i, run) == Fold(visit, Found(root, d, dir, i, true), run)
    decreases fuel, |d.entries| - i, 0
  {
    EntryFacts(snap, d, dir, i, run.fs);
    assert Names(d.entries)[i] == d.entries[i].name;
    PassStep(root, visit, fuel, dir, Names(d.entries), i, run);
    FoundPass(root, d, dir, i);
    AgreesNext(snap, run.fs, run.fs, d, dir, i);
    EntriesFollowPlan(root, visit, fuel, snap, d, dir, i + 1, run);
  }

  /** A file the plan lists: the walk visits it, and the visit leaves the
      rest of the walk in agreement with the staged tree. */
  lemma {:induction false} VisitedFollowsPlan(root: Path, visit: Visitor, fuel: nat, snap: Node, d: Node, dir: Path, i: nat, run: Run)
    requires Sound(visit)
    requires AtEntry(snap, fuel, d, dir, i, run.fs) && i < |d.entries|
    requires !(dir == [] && IsReservedName(d.entries[i].name))
    requires d.entries[i].node.File? && Accepted(root, dir + [d.entries[i].name], true)
    ensures WalkEntries(root, visit, fuel, dir, Names(d.entries), i, run) == Fold(visit, Found(root, d, dir, i, true), run)
    decreases fuel, |d.entries| - i, 0
  {
    var p := dir + [d.entries[i].name];
    var rest := Found(root, d, dir, i + 1, true);
    EntryFacts(snap, d, dir, i, run.fs);
    assert Names(d.entries)[i] == d.entries[i].name;
    FileWalkStep(root, visit, fuel, dir, Names(d.entries), i, run, p);
    assert Found(root, d, dir, i, true) == [p] + rest;
    FoldCons(visit, p, rest, run);
    VisitAgrees(root, visit, snap, d, dir, i, run);
    if visit(run, p).Done? {
      EntriesFollowPlan(root, visit, fuel, snap, d, dir, i + 1, visit(run, p).run);
    }
  }

  /** The plan passes over an entry that is neither a directory the walk
      enters nor a file the file tests accept. */
  lemma FoundPass(root: Path, d: Node, dir: Path, i: nat)
    requires d.Dir? && i < |d.entries|
    requires !(d.entries[i].node.Dir? && !IsReservedName(d.entries[i].name))
    requires !(d.entries[i].node.File? && Accepted(root, dir + [d.entries[i].name], true))
    ensures Found(root, d, dir, i, true) == Found(root, d, dir, i + 1, true)
  {
  }

  /** The walk passes over an entry that is a staging folder, or a file
      the file tests reject. */
  lemma PassStep(root: Path, visit: Visitor, fuel: nat, dir: Path, names: seq<Name>, i: nat, run: Run)
    requires Sound(visit)
    requires i < |names| && Exists(run.fs, dir + [names[i]])
    requires IsDir(run.fs, dir + [names[i]]) ==> IsReservedName(names[i])
    requires IsFile(run.fs, dir + [names[i]]) ==> !Accepted(root, dir + [names[i]], true)
    ensures WalkEntries(root, visit, fuel, dir, names, i, run) == WalkEntries(root, visit, fuel, dir, names, i + 1, run)
  {
    var p := dir + [names[i]];
    assert Parent(p) == dir && p[|p| - 1] == names[i];
  }

  /** The walk at a file the file tests accept: the visit, then the
      remaining entries. */
  lemma FileWalkStep(root: Path, visit: Visitor, fuel: nat, dir: Path, names: seq<Name>, i: nat, run: Run, p: Path)
    requires Sound(visit)
    requires i < |names| && p == dir + [names[i]]
    requires IsFile(run.fs, p) && Accepted(root, p, true)
    ensures WalkEntries(root, visit, fuel, dir, names, i, run) ==
      if visit(run, p).Crashed? then visit(run, p) else WalkEntries(root, visit, fuel, dir, names, i + 1, visit(run, p).run)
  {
    assert Parent(p) == dir && p[|p| - 1] == names[i];
  }

  /** Folding over a list that starts with `p`: the visit of `p`, then the
      rest. */
  lemma FoldCons(visit: Visitor, p: Path, rest: seq<Path>, run: Run)
    requires Sound(visit)
    requires p != [] && forall k :: 0 <= k < |rest| ==> rest[k] != []
    ensures Fold(visit, [p] + rest, run) ==
      if visit(run, p).Crashed? then visit(run, p) else Fold(visit, rest, visit(run, p).run)
  {
    assert ([p] + rest)[0] == p;
    assert ([p] + rest)[1..] == rest;
  }

  /** A visit of entry `i` keeps the agreement for the entries after it. */
  lemma VisitAgrees(root: Path, visit: Visitor, snap: Node, d: Node, dir: Path, i: nat, run: Run)
    requires Sound(visit)
    requires d.Dir? && Wf(d) && i < |d.entries|
    requires dir == [] || !IsReservedName(dir[0])
    requires Agrees(snap, run.fs, d, dir, i)
    ensures visit(run, dir + [d.entries[i].name]).Done? ==>
      Agrees(snap, visit(run, dir + [d.entries[i].name]).run.fs, d, dir, i + 1)
  {
    var p := dir + [d.entries[i].name];
    StepAway(run, p, visit(run, p), p);
    if visit(run, p).Done? {
      StepTopKept(run, p, visit(run, p));
      AgreesNext(snap, run.fs, visit(run, p).run.fs, d, dir, i);
    }
  }

  /** processDirectory(folderPath) over the staged tree `s` visits exactly
      the planned files, in order: the live walk and the fold over
      `Walker.Plan` agree step for step. */
  lemma WalkFollowsPlan(root: Path, visit: Visitor, s: Node)
    requires Sound(visit)
    requires Wf(s) && s.Dir?
    ensures WalkDir(root, visit, Height(s), [], Run(s, 0, [])) == Fold(visit, Plan(root, s), Run(s, 0, []))
  {
    EntriesFollowPlan(root, visit, Height(s), s, s, [], 0, Run(s, 0, []));
  }
}

/** What one call of compressImages (index.js:18-98) promises as a whole:
    which files it hands to the compressor, what the progress bar shows,
    what becomes of each file, and what is left of the staging folders. */
module Runs {
  import opened Wrappers
  import opened Text
  import opened FileSystem
  import opened Classifier
  import opened Codec
  import opened Walker
  import opened Pipeline
  import opened WalkProof

  /** Visiting files never removes a directory. */
  lemma {:induction false} FoldKeepsDirs(visit: Visitor, ps: seq<Path>, run: Run)
    requires Sound(visit)
    requires forall k :: 0 <= k < |ps| ==> ps[k] != []
    ensures DirsKept(run.fs, Fold(visit, ps, run).run.fs)
    decreases |ps|
  {
    if ps != [] {
      assert Keeps(run, ps[0], visit(run, ps[0]));
      match visit(run, ps[0])
      case Crashed(_, _) =>
      case Done(r) => FoldKeepsDirs(visit, ps[1..], r);
    }
  }

  // ---------------------------------------------------------------------
  // What becomes of the files

  /** The file line 73 puts in place of `p`: the compressor's first output,
      when it produces one. */
  function CompressedFile(env: Env, t: Node, p: Path): Option<Node>
  {
    match Compressed(env, t, p)
    case Some(outs) => if |outs| > 0 then Some(File(outs[0].data)) else None
    case None => None
  }

  /** One of the attempts replaced `q`. */
  ghost predicate WasReplaced(attempts: seq<Attempt>, q: Path)
  {
    Attempt(q, Replaced) in attempts
  }

  /** What the files of `t` have become in `after` once `attempts` were
      made: each replaced file holds the compressor's first output for its
      original bytes, and the original sits at `backup/p`; every other file
      outside the staging folders, whether skipped, interrupted by a throw,
      not reached or never an image, is as it was. */
  ghost predicate Settled(env: Env, t: Node, after: Node, attempts: seq<Attempt>)
  {
    && (forall k :: 0 <= k < |attempts| && attempts[k].verdict == Replaced ==>
          && CompressedFile(env, t, attempts[k].path).Some?
          && Lookup(after, attempts[k].path) == CompressedFile(env, t, attempts[k].path)
          && Lookup(after, BackupDir + attempts[k].path) == Lookup(t, attempts[k].path))
    && (forall q :: q != [] && !IsReservedName(q[0]) && IsFile(t, q) && !WasReplaced(attempts, q) ==>
          Lookup(after, q) == Lookup(t, q))
  }

  /** One file's step in those terms: a throw and a skip leave the file as
      it was; a replacement puts the compressed bytes at `p` and the
      original at `backup/p`. */
  lemma VisitOutcome(env: Env, run: Run, p: Path)
    requires p != [] && !IsReservedName(p[0]) && IsFile(run.fs, p)
    ensures Visit(env, run, p).Crashed? ==> Lookup(Visit(env, run, p).run.fs, p) == Lookup(run.fs, p)
    ensures Visit(env, run, p).Done? && Visit(env, run, p).run.attempts[|run.attempts|].verdict.Skipped? ==>
      Lookup(Visit(env, run, p).run.fs, p) == Lookup(run.fs, p)
    ensures Visit(env, run, p).Done? && Visit(env, run, p).run.attempts[|run.attempts|].verdict == Replaced ==>
      && CompressedFile(env, run.fs, p).Some?
      && Lookup(Visit(env, run, p).run.fs, p) == CompressedFile(env, run.fs, p)
      && Lookup(Visit(env, run, p).run.fs, BackupDir + p) == Lookup(run.fs, p)
  {
    var c := Compressed(env, run.fs, p);
    if c.Some? && FirstNamed(c.value) {
      VisitReplaces(env, run, p);
      assert (TempDir + p)[0] == "temp";
    } else {
      VisitSkips(env, run, p);
    }
  }

  /** A file outside the staging folders lies off the frame of every other
      file of the same tree, and so does its backup path. */
  lemma OffFrame(t: Node, p: Path, q: Path)
    requires p != [] && !IsReservedName(p[0]) && IsFile(t, p)
    requires q != [] && !IsReservedName(q[0]) && IsFile(t, q) && q != p
    ensures !(q <= BackupDir + p) && !(q <= TempDir + p) && !(q <= p)
    ensures !(BackupDir + q <= BackupDir + p) && !(BackupDir + q <= TempDir + p) && !(BackupDir + q <= p)
  {
    assert (BackupDir + p)[0] == "backup" && (TempDir + p)[0] == "temp";
    assert (BackupDir + q)[0] == "backup";
    assert BackupDir + q <= BackupDir + p ==> q <= p by {
      if BackupDir + q <= BackupDir + p {
        assert q == (BackupDir + q)[1..] && (BackupDir + p)[1..|q| + 1] == p[..|q|];
      }
    }
    if q <= p {
      AncestorsOfFileAreDirs(t, p, q);
    }
  }

  /** `x` lies off the frame of every file in `ps`. */
  ghost predicate Untouched(x: Path, ps: seq<Path>)
  {
    forall k :: 0 <= k < |ps| ==> !(x <= BackupDir + ps[k]) && !(x <= TempDir + ps[k]) && !(x <= ps[k])
  }

  /** A path off the frame of every file in `ps` keeps its contents through
      the fold. */
  lemma {:induction false} FoldFrame(visit: Visitor, ps: seq<Path>, run: Run, x: Path)
    requires Sound(visit)
    requires forall k :: 0 <= k < |ps| ==> ps[k] != []
    requires Untouched(x, ps)
    ensures Lookup(Fold(visit, ps, run).run.fs, x) == Lookup(run.fs, x)
    decreases |ps|
  {
    if ps != [] {
      assert Keeps(run, ps[0], visit(run, ps[0]));
      assert !(x <= BackupDir + ps[0]) && !(x <= TempDir + ps[0]) && !(x <= ps[0]);
      match visit(run, ps[0])
      case Crashed(_, _) =>
      case Done(r) =>
        assert Untouched(x, ps[1..]) by {
          forall k | 0 <= k < |ps| - 1
            ensures !(x <= BackupDir + ps[1..][k]) && !(x <= TempDir + ps[1..][k]) && !(x <= ps[1..][k])
          {
            assert ps[1..][k] == ps[k + 1];
          }
        }
        FoldFrame(visit, ps[1..], r, x);
    }
  }

  /** A throw that left the file in hand as it was settles nothing and
      changes no file outside the staging folders. */
  lemma SettledCrash(env: Env, t: Node, p: Path, after: Node)
    requires p != [] && !IsReservedName(p[0]) && IsFile(t, p)
    requires Frame(t, after, p) && Lookup(after, p) == Lookup(t, p)
    ensures Settled(env, t, after, [])
  {
    forall q | q != [] && !IsReservedName(q[0]) && IsFile(t, q) && q != p
      ensures Lookup(after, q) == Lookup(t, q)
    {
      OffFrame(t, p, q);
    }
  }

  /** The first step's verdict, followed by what the rest of the fold
      settled from the tree that step left, settles the whole. */
  lemma SettledCons(env: Env, t: Node, p: Path, v: Verdict, mid: Node, after: Node, rest: seq<Attempt>)
    requires p != [] && !IsReservedName(p[0]) && IsFile(t, p)
    requires Frame(t, mid, p)
    requires v == Replaced ==>
      CompressedFile(env, t, p).Some? && Lookup(mid, p) == CompressedFile(env, t, p) && Lookup(mid, BackupDir + p) == Lookup(t, p)
    requires v.Skipped? ==> Lookup(mid, p) == Lookup(t, p)
    requires Lookup(after, BackupDir + p) == Lookup(mid, BackupDir + p)
    requires forall k :: 0 <= k < |rest| ==>
      rest[k].path != p && rest[k].path != [] && !IsReservedName(rest[k].path[0]) && IsFile(t, rest[k].path)
    requires Settled(env, mid, after, rest)
    ensures Settled(env, t, after, [Attempt(p, v)] + rest)
  {
    var all := [Attempt(p, v)] + rest;
    assert IsFile(mid, p) && !WasReplaced(rest, p);
    forall k | 0 <= k < |all| && all[k].verdict == Replaced
      ensures && CompressedFile(env, t, all[k].path).Some?
              && Lookup(after, all[k].path) == CompressedFile(env, t, all[k].path)
              && Lookup(after, BackupDir + all[k].path) == Lookup(t, all[k].path)
    {
      if k > 0 {
        var q := rest[k - 1].path;
        assert all[k] == rest[k - 1];
        OffFrame(t, p, q);
        assert Lookup(mid, q) == Lookup(t, q);
      }
    }
    forall q | q != [] && !IsReservedName(q[0]) && IsFile(t, q) && !WasReplaced(all, q)
      ensures Lookup(after, q) == Lookup(t, q)
    {
      if q != p {
        OffFrame(t, p, q);
      }
    }
  }

  /** Handing the files `ps`, distinct files outside the staging folders,
      to the transaction in turn settles each attempt and leaves every
      other file as it was, whether the fold completes or throws. */
  lemma {:induction false} FoldOutcome(env: Env, ps: seq<Path>, run: Run)
    requires forall k :: 0 <= k < |ps| ==> ps[k] != [] && !IsReservedName(ps[k][0]) && IsFile(run.fs, ps[k])
    requires Distinct(ps)
    ensures Settled(env, run.fs, Fold(FileStep(env), ps, run).run.fs, Fold(FileStep(env), ps, run).run.attempts[|run.attempts|..])
    decreases |ps|, 1
  {
    var visit := FileStep(env);
    var f := Fold(visit, ps, run);
    var n := |run.attempts|;
    if ps == [] {
      assert f.run.attempts[n..] == [];
    } else {
      var p := ps[0];
      VisitOutcome(env, run, p);
      assert visit(run, p) == Visit(env, run, p);
      assert Keeps(run, p, Visit(env, run, p));
      match Visit(env, run, p)
      case Crashed(r, e) =>
        assert f.run == r && r.attempts[n..] == [];
        SettledCrash(env, run.fs, p, r.fs);
      case Done(r) =>
        FoldDone(env, ps, run, r);
        FoldOutcomeStep(env, ps, run, r, r.attempts[n].verdict);
    }
  }

  /** The step of `FoldOutcome` after a first file that completed with the
      verdict `v`. */
  lemma {:induction false} FoldOutcomeStep(env: Env, ps: seq<Path>, run: Run, r: Run, v: Verdict)
    requires forall k :: 0 <= k < |ps| ==> ps[k] != [] && !IsReservedName(ps[k][0]) && IsFile(run.fs, ps[k])
    requires Distinct(ps) && ps != []
    requires Frame(run.fs, r.fs, ps[0])
    requires r.attempts == run.attempts + [Attempt(ps[0], v)]
    requires v == Replaced ==>
      && CompressedFile(env, run.fs, ps[0]).Some?
      && Lookup(r.fs, ps[0]) == CompressedFile(env, run.fs, ps[0])
      && Lookup(r.fs, BackupDir + ps[0]) == Lookup(run.fs, ps[0])
    requires v.Skipped? ==> Lookup(r.fs, ps[0]) == Lookup(run.fs, ps[0])
    ensures Settled(env, run.fs, Fold(FileStep(env), ps[1..], r).run.fs, Fold(FileStep(env), ps[1..], r).run.attempts[|run.attempts|..])
    decreases |ps|, 0
  {
    var visit := FileStep(env);
    var p := ps[0];
    var rest := ps[1..];
    var g := Fold(visit, rest, r);
    RestAfterStep(run.fs, r.fs, ps);
    FoldOutcome(env, rest, r);
    FoldFrame(visit, rest, r, BackupDir + p);
    var later := g.run.attempts[|r.attempts|..];
    LaterPaths(later, rest);
    SettledCons(env, run.fs, p, v, r.fs, g.run.fs, later);
    AttemptsAfterStep(run.attempts, r.attempts, g.run.attempts, Attempt(p, v));
  }

  /** The attempts after a step that added `a` are `a` followed by the
      attempts made later. */
  lemma AttemptsAfterStep(before: seq<Attempt>, mid: seq<Attempt>, after: seq<Attempt>, a: Attempt)
    requires mid == before + [a]
    requires |mid| <= |after| && after[..|mid|] == mid
    ensures after[|before|..] == [a] + after[|mid|..]
  {
    assert after[|before|] == mid[|before|];
  }

  /** The fold after a first file that completed goes on from there. */
  lemma FoldDone(env: Env, ps: seq<Path>, run: Run, r: Run)
    requires ps != [] && forall k :: 0 <= k < |ps| ==> ps[k] != []
    requires Visit(env, run, ps[0]) == Done(r)
    ensures |r.attempts| == |run.attempts| + 1
    ensures Fold(FileStep(env), ps, run) == Fold(FileStep(env), ps[1..], r)
  {
    assert FileStep(env)(run, ps[0]) == Visit(env, run, ps[0]);
  }

  /** After a step on the first of `ps`, the remaining files are still
      files, distinct, and clear of the first one's backup path. */
  lemma RestAfterStep(t: Node, mid: Node, ps: seq<Path>)
    requires forall k :: 0 <= k < |ps| ==> ps[k] != [] && !IsReservedName(ps[k][0]) && IsFile(t, ps[k])
    requires Distinct(ps) && ps != []
    requires Frame(t, mid, ps[0])
    ensures forall k :: 0 <= k < |ps| - 1 ==>
      ps[1..][k] != [] && !IsReservedName(ps[1..][k][0]) && IsFile(mid, ps[1..][k]) && IsFile(t, ps[1..][k]) && ps[1..][k] != ps[0]
    ensures Distinct(ps[1..])
    ensures Untouched(BackupDir + ps[0], ps[1..])
  {
    var p := ps[0];
    var rest := ps[1..];
    forall k | 0 <= k < |rest|
      ensures rest[k] != [] && !IsReservedName(rest[k][0]) && IsFile(mid, rest[k]) && IsFile(t, rest[k]) && rest[k] != p
      ensures !(BackupDir + p <= BackupDir + rest[k]) && !(BackupDir + p <= TempDir + rest[k]) && !(BackupDir + p <= rest[k])
    {
      assert rest[k] == ps[k + 1];
      OffFrame(t, p, rest[k]);
      OffFrame(t, rest[k], p);
    }
    forall a, b | 0 <= a < b < |rest|
      ensures rest[a] != rest[b]
    {
      assert rest[a] == ps[a + 1] && rest[b] == ps[b + 1];
    }
  }

  /** Attempts whose paths run along `ps` are attempts at `ps`. */
  lemma LaterPaths(later: seq<Attempt>, ps: seq<Path>)
    requires Paths(later) <= ps
    ensures forall k :: 0 <= k < |later| ==> later[k].path == ps[k]
  {
    forall k | 0 <= k < |later|
      ensures later[k].path == ps[k]
    {
      assert Paths(later)[k] == later[k].path;
    }
  }

  /** Removing `temp` disturbs nothing `Settled` speaks of. */
  lemma SettledTeardown(env: Env, t: Node, after: Node, attempts: seq<Attempt>)
    requires Settled(env, t, after, attempts)
    requires forall k :: 0 <= k < |attempts| ==> attempts[k].path != [] && !IsReservedName(attempts[k].path[0])
    ensures Settled(env, t, Teardown(after), attempts)
  {
    forall k | 0 <= k < |attempts|
      ensures Lookup(Teardown(after), attempts[k].path) == Lookup(after, attempts[k].path)
      ensures Lookup(Teardown(after), BackupDir + attempts[k].path) == Lookup(after, BackupDir + attempts[k].path)
    {
      assert (BackupDir + attempts[k].path)[0] == "backup";
    }
  }

  /** The planned files are files of the tree outside the staging
      folders. */
  lemma PlanOutsideStaging(root: Path, s: Node)
    requires Wf(s) && s.Dir?
    ensures forall k :: 0 <= k < |Plan(root, s)| ==>
      Plan(root, s)[k] != [] && !IsReservedName(Plan(root, s)[k][0]) && IsFile(s, Plan(root, s)[k])
  {
    var ps := Plan(root, s);
    forall k | 0 <= k < |ps|
      ensures ps[k] != [] && !IsReservedName(ps[k][0]) && IsFile(s, ps[k])
    {
      PlanAvoidsStaging(root, s, ps[k]);
      assert StartsWith("backup", "backup") && StartsWith("temp", "temp");
    }
  }

  /** A path off the frame of every planned file, say a copy an earlier
      run left in `backup` under another name, is as staging left it
      after the run: always when the walk throws, and, when the run
      finishes, unless it lies in `temp`, which the run removes. */
  lemma RunFrame(env: Env, t: Node, x: Path)
    requires Wf(t) && Stage(t).Ok?
    requires x != [] && Untouched(x, Plan(env.root, Stage(t).value))
    ensures CompressImages(env, t).Aborted? ==>
      Lookup(CompressImages(env, t).run.fs, x) == Lookup(Stage(t).value, x)
    ensures CompressImages(env, t).Finished? && !(TempDir <= x) ==>
      Lookup(CompressImages(env, t).run.fs, x) == Lookup(Stage(t).value, x)
  {
    var s := Stage(t).value;
    var run0 := Run(s, 0, []);
    var ps := Plan(env.root, s);
    WalkFollowsPlan(env.root, FileStep(env), s);
    PlanFacts(env.root, s);
    FoldFrame(FileStep(env), ps, run0, x);
  }

  /** A run over a well-formed folder that finishes has handed the
      compressor exactly the planned files of the staged tree, each once
      and in walk order; the bar ticked once per replaced file and never
      beyond the total `countFiles` set; each replaced file holds its
      compressed bytes with the original in `backup`, every other file
      outside the staging folders is as it was, and so is every path off
      the frame of the planned files outside `temp`; and `temp` is gone. */
  lemma FinishedRun(env: Env, t: Node)
    requires Wf(t)
    ensures CompressImages(env, t).Finished? ==>
      && Stage(t).Ok?
      && Paths(CompressImages(env, t).run.attempts) == Plan(env.root, Stage(t).value)
      && Distinct(Paths(CompressImages(env, t).run.attempts))
      && CompressImages(env, t).run.ticks == Replacements(CompressImages(env, t).run.attempts)
      && CompressImages(env, t).total == |Found(env.root, Stage(t).value, [], 0, false)|
      && |CompressImages(env, t).run.attempts| <= CompressImages(env, t).total
      && Settled(env, Stage(t).value, CompressImages(env, t).run.fs, CompressImages(env, t).run.attempts)
      && (forall x :: x != [] && !(TempDir <= x) && Untouched(x, Plan(env.root, Stage(t).value)) ==>
            Lookup(CompressImages(env, t).run.fs, x) == Lookup(Stage(t).value, x))
      && !Exists(CompressImages(env, t).run.fs, TempDir)
  {
    if t.Dir? {
      var s := Stage(t).value;
      var run0 := Run(s, 0, []);
      var ps := Plan(env.root, s);
      WalkFollowsPlan(env.root, FileStep(env), s);
      PlanFacts(env.root, s);
      PlanOutsideStaging(env.root, s);
      FoldOutcome(env, ps, run0);
      var f := Fold(FileStep(env), ps, run0);
      assert f.run.attempts[0..] == f.run.attempts;
      if f.Done? {
        forall k | 0 <= k < |f.run.attempts|
          ensures f.run.attempts[k].path != [] && !IsReservedName(f.run.attempts[k].path[0])
        {
          assert Paths(f.run.attempts)[k] == ps[k];
        }
        SettledTeardown(env, s, f.run.fs, f.run.attempts);
      }
      forall x | x != [] && !(TempDir <= x) && Untouched(x, ps)
        ensures CompressImages(env, t).Finished? ==> Lookup(CompressImages(env, t).run.fs, x) == Lookup(s, x)
      {
        RunFrame(env, t, x);
      }
    }
  }

  /** A run aborts right away, with nothing attempted, on a root that is a
      file. On a folder it aborts only when the walk throws: then the
      files attempted are a proper prefix of the plan, every folder of the
      staged tree still stands, `temp` among them, and the bar shows the
      replacements made so far. No file is lost: each replaced file holds
      its compressed bytes with the original in `backup`, every other
      file outside the staging folders, the one in hand when the throw
      came included, is as it was, and so is every path off the frame of
      the planned files. */
  lemma AbortedRun(env: Env, t: Node)
    requires Wf(t)
    ensures t.File? ==> CompressImages(env, t) == Aborted(Run(t, 0, []), FsError(NotADirectory, []))
    ensures CompressImages(env, t).Aborted? && t.Dir? ==>
      && Stage(t).Ok?
      && Paths(CompressImages(env, t).run.attempts) < Plan(env.root, Stage(t).value)
      && CompressImages(env, t).run.ticks == Replacements(CompressImages(env, t).run.attempts)
      && DirsKept(Stage(t).value, CompressImages(env, t).run.fs)
      && Settled(env, Stage(t).value, CompressImages(env, t).run.fs, CompressImages(env, t).run.attempts)
      && (forall x :: x != [] && Untouched(x, Plan(env.root, Stage(t).value)) ==>
            Lookup(CompressImages(env, t).run.fs, x) == Lookup(Stage(t).value, x))
    ensures CompressImages(env, t).Aborted? && t.Dir? && !Exists(t, TempDir) ==>
      IsDir(CompressImages(env, t).run.fs, TempDir)
  {
    if t.Dir? {
      var s := Stage(t).value;
      var run0 := Run(s, 0, []);
      WalkFollowsPlan(env.root, FileStep(env), s);
      PlanFacts(env.root, s);
      PlanOutsideStaging(env.root, s);
      FoldOutcome(env, Plan(env.root, s), run0);
      FoldKeepsDirs(FileStep(env), Plan(env.root, s), run0);
      var f := Fold(FileStep(env), Plan(env.root, s), run0);
      assert f.run.attempts[0..] == f.run.attempts;
      forall x | x != [] && Untouched(x, Plan(env.root, s))
        ensures CompressImages(env, t).Aborted? ==> Lookup(CompressImages(env, t).run.fs, x) == Lookup(s, x)
      {
        RunFrame(env, t, x);
      }
    }
  }

  /** The verdict for a file `p` outside the staging folders when the
      compressor throws, produces nothing, or produces a first file
      without a destination: the file is passed over with the matching
      diagnostic and the tree is left as it was. */
  lemma VisitSkips(env: Env, run: Run, p: Path)
    requires p != [] && !IsReservedName(p[0]) && IsFile(run.fs, p)
    ensures Compressed(env, run.fs, p).None? ==>
      Visit(env, run, p) == Done(Record(run, run.fs, p, Skipped(CompressionFailed)))
    ensures Compressed(env, run.fs, p) == Some([]) ==>
      Visit(env, run, p) == Done(Record(run, run.fs, p, Skipped(NothingProduced)))
    ensures Compressed(env, run.fs, p).Some? && |Compressed(env, run.fs, p).value| > 0 && !FirstNamed(Compressed(env, run.fs, p).value) ==>
      Visit(env, run, p) == Done(Record(run, run.fs, p, Skipped(MalformedOutput)))
  {
    var made := CompressIntoTemp(env, run.fs, p);
    assert Visit(env, run, p) == Conclude(run, p, made.0, made.1);
  }

  /** The verdict for a file `p` outside the staging folders whose first
      compressed output carries a destination: a blocked path in `temp`
      makes imagemin reject and the file is passed over; a blocked backup
      path throws out of the walk and leaves the file in place; otherwise
      the file is replaced by the compressed bytes, the original is kept at
      `backup/p` and nothing is left at `temp/p`. */
  lemma VisitReplaces(env: Env, run: Run, p: Path)
    requires p != [] && !IsReservedName(p[0]) && IsFile(run.fs, p)
    requires Compressed(env, run.fs, p).Some? && FirstNamed(Compressed(env, run.fs, p).value)
    ensures !Writable(run.fs, TempDir + p) ==>
      Visit(env, run, p).Done? && Visit(env, run, p).run.attempts[|run.attempts|].verdict == Skipped(CompressionFailed)
    ensures Writable(run.fs, TempDir + p) && !Writable(run.fs, BackupDir + p) ==>
      Visit(env, run, p).Crashed? && Lookup(Visit(env, run, p).run.fs, p) == Lookup(run.fs, p)
    ensures Writable(run.fs, TempDir + p) && Writable(run.fs, BackupDir + p) ==>
      && Visit(env, run, p).Done? && Visit(env, run, p).run.attempts[|run.attempts|].verdict == Replaced
      && Lookup(Visit(env, run, p).run.fs, p) == Some(File(Compressed(env, run.fs, p).value[0].data))
      && Lookup(Visit(env, run, p).run.fs, BackupDir + p) == Lookup(run.fs, p)
      && Lookup(Visit(env, run, p).run.fs, TempDir + p) == None
  {
    var made := CompressIntoTemp(env, run.fs, p);
    assert Visit(env, run, p) == Conclude(run, p, made.0, made.1);
    if Writable(run.fs, TempDir + p) {
      assert made.1.files[0].destinationPath.Some?;
      StagingApart(p);
      assert Lookup(made.0, p) == Lookup(run.fs, p);
      assert IsDir(run.fs, []);
      WritableOutside(run.fs, made.0, BackupDir + p, TempDir + p);
      ReplaceOutcome(made.0, p);
      ReplaceKeepsFile(made.0, p);
    }
  }

  /** Writability of `x` is unchanged by a step confined below `y`, a path
      on another branch of the root folder. */
  lemma WritableOutside(t1: Node, t2: Node, x: Path, y: Path)
    requires x != [] && y != [] && x[0] != y[0]
    requires SameOutside(t1, t2, y) && DirsKept(t1, t2) && IsDir(t1, [])
    ensures Writable(t1, x) <==> Writable(t2, x)
  {
    assert IsDir(t2, []);
    forall j | 0 < j <= |x|
      ensures Lookup(t2, x[..j]) == Lookup(t1, x[..j])
    {
      assert x[..j][0] != y[0];
    }
  }

  /** A folder `photos` holding `a.png`, `sub/b.jpg`, the copy
      `backup/old.png` an earlier run left, and an empty `temp`. */
  function ExampleTree(): Node
  {
    Dir([
      Entry("a.png", File([1])),
      Entry("sub", Dir([Entry("b.jpg", File([2]))])),
      Entry("backup", Dir([Entry("old.png", File([3]))])),
      Entry("temp", Dir([]))])
  }

  /** In that folder, which already holds both staging folders, staging
      changes nothing; `countFiles` also counts the old backup copy and
      sets the bar's total to 3, while the walk plans only the two files
      outside the staging folders. This holds whatever the root folder's
      path text, "." included. */
  lemma CountExceedsPlanExample(root: Path)
    ensures Stage(ExampleTree()) == Ok(ExampleTree())
    ensures CountFiles(root, ExampleTree()) == Ok(3)
    ensures Plan(root, ExampleTree()) == [["a.png"], ["sub", "b.jpg"]]
  {
    var t := ExampleTree();
    assert Exists(t, BackupDir) && Exists(t, TempDir);
    ExampleCount(root);
    ExamplePlan(root);
  }

  /** Whatever the compressor does and whether the run finishes or
      throws, the copy `backup/old.png` the earlier run left is untouched:
      no planned file has it on its frame. */
  lemma ExampleBackupKept(env: Env, t: Node)
    requires t == ExampleTree()
    ensures Lookup(CompressImages(env, t).run.fs, ["backup", "old.png"]) == Some(File([3]))
  {
    var x: Path := ["backup", "old.png"];
    ExampleWf(t);
    CountExceedsPlanExample(env.root);
    ExampleOffFrame(Plan(env.root, t));
    assert !(TempDir <= x) by { assert x[0][0] != TempDir[0][0]; }
    RunFrame(env, t, x);
    ExampleOldCopy(t);
  }

  /** The staged example folder holds the old copy at `backup/old.png`. */
  lemma ExampleOldCopy(t: Node)
    requires t == ExampleTree()
    ensures Lookup(t, ["backup", "old.png"]) == Some(File([3]))
  {
    var es, b := t.entries, t.entries[2].node;
    assert es[0].name[0] != 'b' && es[1].name[0] != 'b';
    assert IndexOf(es, "backup") == Some(2);
    assert IndexOf(b.entries, "old.png") == Some(0);
    assert Lookup(b, ["old.png"]) == Lookup(b.entries[0].node, []);
  }

  /** The example folder lists each name once. */
  lemma ExampleWf(t: Node)
    requires t == ExampleTree()
    ensures Wf(t)
  {
    var es := t.entries;
    forall i, j | 0 <= i < j < |es|
      ensures NameAt(es, i) != NameAt(es, j)
    {
      assert NameAt(es, i)[0] != NameAt(es, j)[0];
    }
    forall i | 0 <= i < |es|
      ensures es[i].name != "" && IsSegment(es[i].name) && Wf(es[i].node)
    {
      if i == 1 || i == 2 {
        assert IsSegment(es[i].node.entries[0].name);
      }
    }
  }

  /** `backup/old.png` is off the frame of both planned files. */
  lemma ExampleOffFrame(ps: seq<Path>)
    requires ps == [["a.png"], ["sub", "b.jpg"]]
    ensures Untouched(["backup", "old.png"], ps)
  {
    var x: Path := ["backup", "old.png"];
    forall k | 0 <= k < |ps|
      ensures !(x <= BackupDir + ps[k]) && !(x <= TempDir + ps[k]) && !(x <= ps[k])
    {
      assert (BackupDir + ps[k])[1] == ps[k][0] && (TempDir + ps[k])[0] == "temp";
      assert x[1][0] != ps[k][0][0] && x[0][0] != "temp"[0];
      assert k == 1 ==> x[0][0] != ps[k][0][0];
    }
  }

  lemma ExampleCount(root: Path)
    ensures Found(root, ExampleTree(), [], 0, false) == [["a.png"], ["sub", "b.jpg"], ["backup", "old.png"]]
  {
    var t := ExampleTree();
    ExampleFileA(root);
    ExampleFileB(root);
    ExampleSub(root, false);
    ExampleStaging(root);
    assert [] + ["a.png"] == ["a.png"] && [] + ["sub"] == ["sub"];
    assert Found(root, t, [], 1, false) == [["sub", "b.jpg"]] + Found(root, t, [], 2, false);
  }

  lemma ExamplePlan(root: Path)
    ensures Plan(root, ExampleTree()) == [["a.png"], ["sub", "b.jpg"]]
  {
    var t := ExampleTree();
    ExampleFileA(root);
    ExampleFileB(root);
    ExampleSub(root, true);
    assert [] + ["a.png"] == ["a.png"] && [] + ["sub"] == ["sub"];
    assert Found(root, t, [], 2, true) == [];
    assert Found(root, t, [], 1, true) == [["sub", "b.jpg"]];
  }

  /** What the two traversals find in `sub`. */
  lemma ExampleSub(root: Path, skip: bool)
    requires Accepted(root, ["sub", "b.jpg"], skip)
    ensures Found(root, ExampleTree().entries[1].node, ["sub"], 0, skip) == [["sub", "b.jpg"]]
  {
    assert ["sub"] + ["b.jpg"] == ["sub", "b.jpg"];
  }

  /** What `countFiles` finds in `backup` and `temp`. */
  lemma ExampleStaging(root: Path)
    ensures Found(root, ExampleTree(), [], 2, false) == [["backup", "old.png"]]
  {
    var t := ExampleTree();
    ExampleImage(root, ["backup"], "old.png", 3);
    assert ["backup"] + ["old.png"] == ["backup", "old.png"];
    assert [] + ["backup"] == ["backup"] && [] + ["temp"] == ["temp"];
    assert Found(root, t.entries[2].node, ["backup"], 0, false) == [["backup", "old.png"]];
    assert Found(root, t, [], 3, false) == [];
  }

  lemma ExampleFileA(root: Path)
    ensures Accepted(root, ["a.png"], false)
    ensures Accepted(root, ["a.png"], true)
  {
    ExampleImage(root, [], "a.png", 1);
    assert [] + ["a.png"] == ["a.png"];
    if root != [] {
      PathCheckIsNamePrefix(root, [], "a.png");
    } else {
      ExampleAtDot();
    }
  }

  /** At the top of a root folder ".", the path check lets `a.png` through. */
  lemma ExampleAtDot()
    ensures !SkippedByPathCheck([], [], "a.png")
  {
    PathCheckAtDotRoot("a.png");
    var s := "a.png";
    assert s[0..4][0] == 'a' && s[1..5][0] == '.';
    assert !OccursAt(s, "temp", 0) && !OccursAt(s, "temp", 1);
  }

  lemma ExampleFileB(root: Path)
    ensures Accepted(root, ["sub", "b.jpg"], false)
    ensures Accepted(root, ["sub", "b.jpg"], true)
  {
    ExampleImage(root, ["sub"], "b.jpg", 1);
    assert ["sub"] + ["b.jpg"] == ["sub", "b.jpg"];
    PathCheckIsNamePrefix(root, ["sub"], "b.jpg");
  }

  /** The file `name` in `dir`, with a dot at `k` before an image
      extension, matches the pattern of line 44. */
  lemma ExampleImage(root: Path, dir: Path, name: Name, k: nat)
    requires IsSegment(name) && k < |name| && name[k] == '.' && IsImageExtension(name[k + 1..])
    ensures MatchesImagePattern(PathText(root, dir + [name]))
  {
    PatternSeesOnlyTheName(root, dir, name);
  }

  /** Running the staging again on a staged tree changes nothing, and so
      does removing `temp` a second time. */
  lemma StagingIdempotent(t: Node)
    ensures Stage(t).Ok? ==> Stage(Stage(t).value) == Stage(t)
    ensures Teardown(Teardown(t)) == Teardown(t)
  {
  }
}

/** compressImages (index.js:18-98): staging the `backup` and `temp`
    folders, the recursive walk `processDirectory` with its per-file
    transaction, and the removal of `temp` at the end. The filesystem is the
    tree of the root folder; the root folder's own path text, used only for
    the string tests of lines 44-45 and the plugin choice of line 50, is
    `env.root`. */
module Pipeline {
  import opened Wrappers
  import opened Text
  import opened FileSystem
  import opened Classifier
  import opened Codec
  import opened Walker

  /** Line 20: `path.join(folderPath, 'backup')`. */
  const BackupDir: Path := ["backup"]

  /** Line 21: `path.join(folderPath, 'temp')`. */
  const TempDir: Path := ["temp"]

  /** Why a file was passed over: imagemin rejected (lines 54-56, then
      58-60), it resolved with no file (58-60), or the first file has no
      `destinationPath` (63-67). */
  datatype Failure = CompressionFailed | NothingProduced | MalformedOutput

  datatype Verdict = Replaced | Skipped(why: Failure)

  /** One file the walk handed to the compressor, and what became of it; the
      list of these stands for the console messages and the bar's ticks. */
  datatype Attempt = Attempt(path: Path, verdict: Verdict)

  /** The state the walk threads: the tree, the progress bar's count and the
      attempts so far. */
  datatype Run = Run(fs: Node, ticks: nat, attempts: seq<Attempt>)

  /** A step either completes or throws out of the walk; a throw keeps the
      tree as it was at that moment. */
  datatype Step = Done(run: Run) | Crashed(run: Run, error: FsError)

  /** What a run is given: the root folder's path text, the options and the
      compressor. */
  datatype Env = Env(root: Path, options: Options, codec: Compressor)

  /** How a call of compressImages ends: it finished, with the bar's total,
      or it threw and the outer catch (lines 94-97) logged the error. */
  datatype Outcome = Finished(run: Run, total: nat) | Aborted(run: Run, error: FsError)

  /** `t2` differs from `t1` only at the file `p`, its backup copy, its temp
      copy and their ancestors. */
  ghost predicate Frame(t1: Node, t2: Node, p: Path)
  {
    forall q :: !(q <= BackupDir + p) && !(q <= TempDir + p) && !(q <= p) ==> Lookup(t2, q) == Lookup(t1, q)
  }

  function Replacements(attempts: seq<Attempt>): (n: nat)
    ensures n <= |attempts|
  {
    if attempts == [] then 0
    else (if attempts[0].verdict == Replaced then 1 else 0) + Replacements(attempts[1..])
  }

  function Paths(attempts: seq<Attempt>): (ps: seq<Path>)
    ensures |ps| == |attempts|
    ensures forall k :: 0 <= k < |attempts| ==> ps[k] == attempts[k].path
  {
    seq(|attempts|, k requires 0 <= k < |attempts| => attempts[k].path)
  }

  /** The plugin line 50 picks for `p` and what the compressor makes of the
      file there; None when it throws or `p` is not a file. */
  function Compressed(env: Env, t: Node, p: Path): Option<seq<Output>>
  {
    match Lookup(t, p)
    case Some(File(c)) => env.codec(c, PluginFor(PathText(env.root, p), env.options))
    case _ => None
  }

  /** Lines 69-73 once imagemin has written its output at `temp/p`: make the
      backup folder, then move the files (`MoveIntoPlace`). The first call
      that fails throws; the tree is then as that call found it. */
  function Replace(t: Node, p: Path): (r: (Node, Option<FsError>))
    requires p != []
    ensures Frame(t, r.0, p) && DirsKept(t, r.0)
    ensures r.1.None? ==> IsDir(r.0, BackupDir)
  {
    var backupPath := BackupDir + p;
    FrameRefl(t, p);
    match MkdirP(t, Parent(backupPath))
    case Err(e) => (t, Some(e))
    case Ok(t2) =>
      FrameStep(t, t, t2, p, Parent(backupPath), Parent(backupPath));
      assert IsDir(t2, BackupDir) by {
        if Parent(backupPath) != BackupDir {
          AncestorsAreDirs(t2, Parent(backupPath), BackupDir);
        }
      }
      var r := MoveIntoPlace(t2, p);
      FrameTrans(t, t2, r.0, p);
      r
  }

  /** Lines 70-73: copy the original to `backup/p`, delete it, and move the
      compressed file from `temp/p` into its place. For a file outside the
      staging folders whose backup folder stands, this goes through exactly
      when the file and its copy in `temp` are files and no directory
      blocks the backup path, and then the three paths end up as promised.
      With the copy in `temp` present, only the copy can fail, so a throw
      never leaves the file deleted. */
  function MoveIntoPlace(t: Node, p: Path): (r: (Node, Option<FsError>))
    requires p != []
    ensures Frame(t, r.0, p) && DirsKept(t, r.0)
    ensures r.1.Some? && !IsReservedName(p[0]) && IsFile(t, TempDir + p) ==> Lookup(r.0, p) == Lookup(t, p)
    ensures !IsReservedName(p[0]) && IsDir(t, Parent(BackupDir + p)) ==>
      (r.1.None? <==> IsFile(t, p) && IsFile(t, TempDir + p) && !IsDir(t, BackupDir + p))
    ensures !IsReservedName(p[0]) && r.1.None? ==>
      && Lookup(r.0, p) == Lookup(t, TempDir + p)
      && Lookup(r.0, BackupDir + p) == Lookup(t, p)
      && Lookup(r.0, TempDir + p) == None
  {
    var backupPath := BackupDir + p;
    var src := TempDir + p;
    FrameRefl(t, p);
    match CopyFile(t, p, backupPath)
    case Err(e) => (t, Some(e))
    case Ok(t3) =>
      FrameStep(t, t, t3, p, backupPath, backupPath);
      match Unlink(t3, p)
      case Err(e) =>
        StagingApart(p);
        (t3, Some(e))
      case Ok(t4) =>
        FrameStep(t, t3, t4, p, p, p);
        match Rename(t4, src, p)
        case Err(e) =>
          StagingApart(p);
          ParentKept(t, t4, p);
          (t4, Some(e))
        case Ok(t5) =>
          FrameStep(t, t4, t5, p, src, p);
          StagingApart(p);
          (t5, None)
  }

  /** The folder holding a file of `t` is still a folder in a tree that
      kept every directory of `t`. */
  lemma ParentKept(t: Node, t2: Node, p: Path)
    requires p != [] && DirsKept(t, t2)
    ensures IsFile(t, p) ==> IsDir(t2, Parent(p))
  {
    if IsFile(t, p) {
      AncestorsOfFileAreDirs(t, p, Parent(p));
    }
  }

  /** A path outside the staging folders, its backup path and its path in
      `temp` are not prefixes of each other. */
  lemma StagingApart(p: Path)
    requires p != []
    ensures !(BackupDir + p <= p) && !(TempDir + p <= p)
    ensures !(BackupDir + p <= TempDir + p) && !(TempDir + p <= BackupDir + p)
    ensures !IsReservedName(p[0]) ==> !(p <= BackupDir + p) && !(p <= TempDir + p)
  {
    assert (BackupDir + p)[0] == "backup" && (TempDir + p)[0] == "temp";
  }

  lemma TempFrame(t1: Node, t2: Node, p: Path)
    requires SameOutside(t1, t2, TempDir + p)
    ensures Frame(t1, t2, p)
  {
  }

  lemma FrameTrans(t0: Node, t1: Node, t2: Node, p: Path)
    requires Frame(t0, t1, p) && DirsKept(t0, t1)
    requires Frame(t1, t2, p) && DirsKept(t1, t2)
    ensures Frame(t0, t2, p) && DirsKept(t0, t2)
  {
  }

  lemma FrameRefl(t: Node, p: Path)
    ensures Frame(t, t, p) && DirsKept(t, t)
  {
  }

  /** A call that changes only `x`, `y` and their ancestors, where both lie
      in the frame of `p`, keeps the frame of `p`. */
  lemma FrameStep(t0: Node, t1: Node, t2: Node, p: Path, x: Path, y: Path)
    requires Frame(t0, t1, p) && DirsKept(t0, t1)
    requires forall q :: !(q <= x) && !(q <= y) ==> Lookup(t2, q) == Lookup(t1, q)
    requires DirsKept(t1, t2)
    requires x <= BackupDir + p || x <= TempDir + p || x <= p
    requires y <= BackupDir + p || y <= TempDir + p || y <= p
    ensures Frame(t0, t2, p) && DirsKept(t0, t2)
  {
  }

  /** For a file outside the two staging folders the transaction of lines
      69-73 goes through exactly when the file and its compressed copy in
      `temp` are files and nothing blocks its backup path; it then leaves
      the compressed bytes at `p`, the original at `backup/p`, and no copy in
      `temp`. */
  lemma ReplaceOutcome(t: Node, p: Path)
    requires p != [] && !IsReservedName(p[0])
    ensures Replace(t, p).1.None? <==> IsFile(t, p) && IsFile(t, TempDir + p) && Writable(t, BackupDir + p)
    ensures Replace(t, p).1.None? ==>
      && Lookup(Replace(t, p).0, p) == Lookup(t, TempDir + p)
      && Lookup(Replace(t, p).0, BackupDir + p) == Lookup(t, p)
      && Lookup(Replace(t, p).0, TempDir + p) == None
  {
    match MkdirP(t, Parent(BackupDir + p))
    case Err(_) => ReplaceBlocked(t, p);
    case Ok(t2) => ReplaceAfterMkdir(t, p, t2);
  }

  /** With the compressed copy in `temp`, a throw from lines 69-73 leaves
      the file in place: the backup folder and the copy are the only calls
      that can fail, and both come before the unlink. */
  lemma ReplaceKeepsFile(t: Node, p: Path)
    requires p != [] && !IsReservedName(p[0]) && IsFile(t, TempDir + p)
    ensures Replace(t, p).1.Some? ==> Lookup(Replace(t, p).0, p) == Lookup(t, p)
  {
    var dir := Parent(BackupDir + p);
    match MkdirP(t, dir)
    case Err(_) =>
    case Ok(t2) =>
      assert dir[0] == "backup";
      assert !(p <= dir) && !(TempDir + p <= dir);
      assert Lookup(t2, p) == Lookup(t, p) && Lookup(t2, TempDir + p) == Lookup(t, TempDir + p);
      assert Replace(t, p) == MoveIntoPlace(t2, p);
  }

  /** When the backup folder cannot be made, a file stands on the way to
      the backup path. */
  lemma ReplaceBlocked(t: Node, p: Path)
    requires p != [] && MkdirP(t, Parent(BackupDir + p)).Err?
    ensures Replace(t, p).1.Some? && !Writable(t, BackupDir + p)
  {
    var bp := BackupDir + p;
    var dir := Parent(bp);
    assert forall j :: 0 <= j <= |dir| ==> dir[..j] == bp[..j];
    var j :| 0 <= j <= |dir| && IsFile(t, dir[..j]);
  }

  /** Once the backup folder stands, the rest of the transaction goes
      through exactly when the file, its copy in `temp` and the backup path
      allow it. */
  lemma ReplaceAfterMkdir(t: Node, p: Path, t2: Node)
    requires p != [] && !IsReservedName(p[0]) && MkdirP(t, Parent(BackupDir + p)) == Ok(t2)
    ensures Replace(t, p).1.None? <==> IsFile(t, p) && IsFile(t, TempDir + p) && Writable(t, BackupDir + p)
    ensures Replace(t, p).1.None? ==>
      && Lookup(Replace(t, p).0, p) == Lookup(t, TempDir + p)
      && Lookup(Replace(t, p).0, BackupDir + p) == Lookup(t, p)
      && Lookup(Replace(t, p).0, TempDir + p) == None
  {
    var bp := BackupDir + p;
    var src := TempDir + p;
    var dir := Parent(bp);
    StagingApart(p);
    assert !(p <= dir) && !(src <= dir) && !(bp <= dir) by {
      assert dir[0] == "backup" && |dir| < |bp|;
    }
    WritableAfterMkdir(t, bp, t2);
    assert Lookup(t2, p) == Lookup(t, p) && Lookup(t2, src) == Lookup(t, src);
    assert Replace(t, p) == MoveIntoPlace(t2, p);
  }

  /** Once the folder above `x` could be made, `x` is writable exactly when
      it is no directory. */
  lemma WritableAfterMkdir(t: Node, x: Path, t2: Node)
    requires x != [] && MkdirP(t, Parent(x)) == Ok(t2)
    ensures Writable(t, x) <==> !IsDir(t2, x)
  {
    var dir := Parent(x);
    assert forall j :: 0 <= j <= |dir| ==> dir[..j] == x[..j];
    assert !(x <= dir);
  }

  /** The run after the file `p` got the verdict `v`: the bar ticks only for
      a replaced file (line 75). */
  function Record(run: Run, fs: Node, p: Path, v: Verdict): (r: Run)
    ensures r.fs == fs
    ensures r.attempts == run.attempts + [Attempt(p, v)]
    ensures r.ticks == run.ticks + (if v == Replaced then 1 else 0)
  {
    Run(fs, run.ticks + (if v == Replaced then 1 else 0), run.attempts + [Attempt(p, v)])
  }

  /** What the step for the file `p` promises, from `run` to `s`: it changes
      the tree only within the frame of `p` and keeps every directory; when
      it completes it records one attempt for `p`, ticking only for a
      replacement, leaves the tree as it was or with a `temp` folder, has
      made `backup` for a replacement and touched nothing but `temp/p` for a
      skip; when it throws, the ticks and attempts stay as they were. */
  ghost predicate Keeps(run: Run, p: Path, s: Step)
  {
    && Frame(run.fs, s.run.fs, p) && DirsKept(run.fs, s.run.fs)
    && (s.Done? ==>
          && |s.run.attempts| == |run.attempts| + 1
          && s.run == Record(run, s.run.fs, p, s.run.attempts[|run.attempts|].verdict))
    && (s.Crashed? ==> s.run.ticks == run.ticks && s.run.attempts == run.attempts)
    && (s.Done? ==> s.run.fs == run.fs || IsDir(s.run.fs, TempDir))
    && (s.Done? && s.run.attempts[|run.attempts|].verdict == Replaced ==> IsDir(s.run.fs, BackupDir))
    && (s.Done? && s.run.attempts[|run.attempts|].verdict.Skipped? ==> SameOutside(run.fs, s.run.fs, TempDir + p))
  }

  /** Line 47 for the file `p`: imagemin with the plugin line 50 picks and
      `temp/dirname(p)` as destination. It resolves exactly when `p` is a
      file the compressor takes and, if the first output is to be written,
      `temp/p` can be written; it then reports the compressor's outputs with
      `temp/p` as their destination, and the first one stands there. It
      touches nothing outside `temp/p` and its ancestors, and whatever it
      changed, `temp` is then a folder. */
  function CompressIntoTemp(env: Env, fs: Node, p: Path): (r: (Node, Reply))
    requires p != []
    ensures r.1.Files? <==>
      && IsFile(fs, p) && Compressed(env, fs, p).Some?
      && (FirstNamed(Compressed(env, fs, p).value) ==> Writable(fs, TempDir + p))
    ensures r.1.Files? ==> r.1.files == Objects(Compressed(env, fs, p).value, TempDir + p)
    ensures r.1.Files? && |r.1.files| > 0 && r.1.files[0].destinationPath.Some? ==>
      Lookup(r.0, TempDir + p) == Some(File(r.1.files[0].data)) && IsDir(r.0, TempDir)
    ensures SameOutside(fs, r.0, TempDir + p) && DirsKept(fs, r.0)
    ensures r.0 == fs || IsDir(r.0, TempDir)
  {
    var plugin := PluginFor(PathText(env.root, p), env.options);
    var target := TempDir + p;
    assert Parent(target) + [p[|p| - 1]] == target;
    assert IsFile(fs, p) ==> Compressed(env, fs, p) == env.codec(Lookup(fs, p).value.data, plugin);
    var made := Imagemin(fs, env.codec, p, Parent(target), plugin);
    assert IsDir(made.0, Parent(target)) ==> IsDir(made.0, TempDir) by {
      if IsDir(made.0, Parent(target)) && Parent(target) != TempDir {
        AncestorsAreDirs(made.0, Parent(target), TempDir);
      }
    }
    made
  }

  /** Lines 47-75 for the image file `p`: compress it into `temp`, check
      what imagemin resolved with, and replace the file by its compressed
      copy, keeping the original in `backup`. */
  function Visit(env: Env, run: Run, p: Path): (s: Step)
    requires p != []
    ensures Keeps(run, p, s)
  {
    var made := CompressIntoTemp(env, run.fs, p);
    TempFrame(run.fs, made.0, p);
    var s := Conclude(run, p, made.0, made.1);
    FrameTrans(run.fs, made.0, s.run.fs, p);
    s
  }

  /** Lines 58-75 once imagemin has settled with `reply`, the tree being
      `fs`: the two checks, then the replacement and the tick. */
  function Conclude(run: Run, p: Path, fs: Node, reply: Reply): (s: Step)
    requires p != []
    requires reply.Files? && |reply.files| > 0 && reply.files[0].destinationPath.Some? ==> IsDir(fs, TempDir)
    ensures Frame(fs, s.run.fs, p) && DirsKept(fs, s.run.fs)
    ensures s.Done? ==> |s.run.attempts| == |run.attempts| + 1
    ensures s.Done? ==> s.run == Record(run, s.run.fs, p, s.run.attempts[|run.attempts|].verdict)
    ensures s.Crashed? ==> s.run.ticks == run.ticks && s.run.attempts == run.attempts
    ensures s.Done? && s.run.attempts[|run.attempts|].verdict.Skipped? ==> s.run.fs == fs
    ensures s.Done? && s.run.attempts[|run.attempts|].verdict == Replaced ==>
      IsDir(s.run.fs, BackupDir) && IsDir(s.run.fs, TempDir)
    ensures reply.Rejected? ==> s.Done? && s.run.attempts[|run.attempts|].verdict == Skipped(CompressionFailed)
    ensures reply == Files([]) ==> s.Done? && s.run.attempts[|run.attempts|].verdict == Skipped(NothingProduced)
    ensures reply.Files? && |reply.files| > 0 && reply.files[0].destinationPath.None? ==>
      s.Done? && s.run.attempts[|run.attempts|].verdict == Skipped(MalformedOutput)
    ensures reply.Files? && |reply.files| > 0 && reply.files[0].destinationPath.Some? && s.Done? ==>
      s.run.attempts[|run.attempts|].verdict == Replaced
  {
    match reply
    case Rejected => Done(Record(run, fs, p, Skipped(CompressionFailed)))
    case Files(objs) =>
      if |objs| == 0 then Done(Record(run, fs, p, Skipped(NothingProduced)))
      else if objs[0].destinationPath.None? then Done(Record(run, fs, p, Skipped(MalformedOutput)))
      else
        var replaced := Replace(fs, p);
        match replaced.1
        case Some(e) => Crashed(Run(replaced.0, run.ticks, run.attempts), e)
        case None => Done(Record(run, replaced.0, p, Replaced))
  }

  /** The per-file step the walk takes for each image it accepts. */
  type Visitor = (Run, Path) --> Step

  /** `visit` takes every non-empty path and keeps its promises. */
  ghost predicate Sound(visit: Visitor)
  {
    && (forall run: Run, p: Path :: p != [] ==> visit.requires(run, p))
    && (forall run: Run, p: Path {:trigger Keeps(run, p, visit(run, p))} :: p != [] ==> Keeps(run, p, visit(run, p)))
  }

  /** The transaction of lines 47-75 under the environment `env`, as the
      walk calls it. */
  function FileStep(env: Env): (visit: Visitor)
    ensures Sound(visit)
    ensures forall run: Run, p: Path :: p != [] ==> visit.requires(run, p) && visit(run, p) == Visit(env, run, p)
  {
    (run: Run, p: Path) requires p != [] => Visit(env, run, p)
  }

  /** The files `ps` visited in turn; a throw ends the sequence. */
  function Fold(visit: Visitor, ps: seq<Path>, run: Run): (s: Step)
    requires Sound(visit)
    requires forall k :: 0 <= k < |ps| ==> ps[k] != []
    ensures |run.attempts| <= |s.run.attempts|
    ensures s.run.attempts[..|run.attempts|] == run.attempts
    ensures s.Done? ==> Paths(s.run.attempts[|run.attempts|..]) == ps
    ensures s.Crashed? ==> Paths(s.run.attempts[|run.attempts|..]) < ps
    ensures s.run.ticks == run.ticks + Replacements(s.run.attempts[|run.attempts|..])
    decreases |ps|
  {
    if ps == [] then Done(run)
    else
      assert Keeps(run, ps[0], visit(run, ps[0]));
      match visit(run, ps[0])
      case Crashed(r, e) => Crashed(r, e)
      case Done(r) =>
        var s := Fold(visit, ps[1..], r);
        FoldStep(run, r, s, ps);
        s
  }

  lemma FoldStep(run: Run, r: Run, s: Step, ps: seq<Path>)
    requires ps != [] && |r.attempts| == |run.attempts| + 1
    requires r == Record(run, r.fs, ps[0], r.attempts[|run.attempts|].verdict)
    requires |r.attempts| <= |s.run.attempts| && s.run.attempts[..|r.attempts|] == r.attempts
    requires s.Done? ==> Paths(s.run.attempts[|r.attempts|..]) == ps[1..]
    requires s.Crashed? ==> Paths(s.run.attempts[|r.attempts|..]) < ps[1..]
    requires s.run.ticks == r.ticks + Replacements(s.run.attempts[|r.attempts|..])
    ensures |run.attempts| <= |s.run.attempts| && s.run.attempts[..|run.attempts|] == run.attempts
    ensures s.Done? ==> Paths(s.run.attempts[|run.attempts|..]) == ps
    ensures s.Crashed? ==> Paths(s.run.attempts[|run.attempts|..]) < ps
    ensures s.run.ticks == run.ticks + Replacements(s.run.attempts[|run.attempts|..])
  {
    var n := |run.attempts|;
    var all := s.run.attempts;
    assert all[..n] == all[..n + 1][..n];
    assert all[n] == r.attempts[n] && all[n].path == ps[0];
    AttemptsFrom(all, n);
    assert ps == [ps[0]] + ps[1..];
  }

  /** The attempts from `n` on are attempt `n` followed by those after it. */
  lemma AttemptsFrom(all: seq<Attempt>, n: nat)
    requires n < |all|
    ensures Paths(all[n..]) == [all[n].path] + Paths(all[n + 1..])
    ensures Replacements(all[n..]) == (if all[n].verdict == Replaced then 1 else 0) + Replacements(all[n + 1..])
  {
    assert all[n..][1..] == all[n + 1..];
  }

  /** `after` carries on from `before`: its attempts extend those of
      `before`, and the bar rose once for each replacement among the new
      ones. */
  predicate Continues(before: Run, after: Run)
  {
    && |before.attempts| <= |after.attempts|
    && after.attempts[..|before.attempts|] == before.attempts
    && after.ticks == before.ticks + Replacements(after.attempts[|before.attempts|..])
  }

  lemma ContinuesRefl(run: Run)
    ensures Continues(run, run)
  {
    assert run.attempts[|run.attempts|..] == [];
  }

  lemma ContinuesTrans(a: Run, b: Run, c: Run)
    requires Continues(a, b) && Continues(b, c)
    ensures Continues(a, c)
  {
    var n, m, all := |a.attempts|, |b.attempts|, c.attempts;
    assert all[..n] == all[..m][..n];
    ReplacementsSplit(all[n..], m - n);
    assert all[n..][..m - n] == b.attempts[n..];
    assert all[n..][m - n..] == all[m..];
  }

  /** The replacements of a list are those of its first `k` attempts plus
      those of the rest. */
  lemma {:induction false} ReplacementsSplit(s: seq<Attempt>, k: nat)
    requires k <= |s|
    ensures Replacements(s) == Replacements(s[..k]) + Replacements(s[k..])
    decreases k
  {
    if k == 0 {
      assert s[..0] == [] && s[0..] == s;
    } else {
      ReplacementsSplit(s[1..], k - 1);
      assert s[1..][..k - 1] == s[..k][1..];
      assert s[1..][k - 1..] == s[k..];
    }
  }

  /** One step of a sound visitor carries the run on. */
  lemma VisitContinues(visit: Visitor, run: Run, p: Path)
    requires Sound(visit) && p != []
    ensures Continues(run, visit(run, p).run)
  {
    assert Keeps(run, p, visit(run, p));
    var r := visit(run, p).run;
    if visit(run, p).Done? {
      assert r.attempts[..|run.attempts|] == run.attempts;
      assert r.attempts[|run.attempts|..] == [r.attempts[|run.attempts|]];
    } else {
      ContinuesRefl(run);
    }
  }

  /** Line 35 and the loop of lines 36-77 over the entries `names[i..]` of
      the directory `dir`: every name is looked up afresh (line 38), the
      current tree being whatever the files before it left. `root` is the
      root folder's path text, `visit` the transaction of lines 47-75, and
      `fuel` bounds the depth of directories entered. */
  function WalkEntries(root: Path, visit: Visitor, fuel: nat, dir: Path, names: seq<Name>, i: nat, run: Run): (s: Step)
    requires Sound(visit)
    requires i <= |names|
    decreases fuel, 0, |names| - i
  {
    if i == |names| then Done(run)
    else
      var name := names[i];
      var p := dir + [name];
      match Lookup(run.fs, p)
      case None => Crashed(run, FsError(Missing, p))
      case Some(Dir(_)) =>
        if IsReservedName(name) || fuel == 0 then WalkEntries(root, visit, fuel, dir, names, i + 1, run)
        else
          (match WalkDir(root, visit, fuel - 1, p, run)
           case Crashed(r, e) => Crashed(r, e)
           case Done(r) => WalkEntries(root, visit, fuel, dir, names, i + 1, r))
      case Some(File(_)) =>
        if MatchesImagePattern(PathText(root, p)) && !SkippedByPathCheck(root, dir, name) then
          match visit(run, p)
          case Crashed(r, e) => Crashed(r, e)
          case Done(r) => WalkEntries(root, visit, fuel, dir, names, i + 1, r)
        else WalkEntries(root, visit, fuel, dir, names, i + 1, run)
  }

  /** `processDirectory(dir)` (lines 34-78): read the directory, then walk
      its entries. */
  function WalkDir(root: Path, visit: Visitor, fuel: nat, dir: Path, run: Run): (s: Step)
    requires Sound(visit)
    decreases fuel, 1
  {
    match ReadDir(run.fs, dir)
    case Err(e) => Crashed(run, e)
    case Ok(names) => WalkEntries(root, visit, fuel, dir, names, 0, run)
  }

  /** `processDirectory` only appends attempts, whether it returns or
      throws, and the bar ticks once for each replacement among them. */
  lemma {:induction false} WalkDirContinues(root: Path, visit: Visitor, fuel: nat, dir: Path, run: Run)
    requires Sound(visit)
    ensures Continues(run, WalkDir(root, visit, fuel, dir, run).run)
    decreases fuel, 1
  {
    match ReadDir(run.fs, dir)
    case Err(_) => ContinuesRefl(run);
    case Ok(names) => WalkEntriesContinues(root, visit, fuel, dir, names, 0, run);
  }

  /** The loop of lines 36-77 from entry `i` on only appends attempts, and
      the bar ticks once for each replacement among them. */
  lemma {:induction false} WalkEntriesContinues(root: Path, visit: Visitor, fuel: nat, dir: Path, names: seq<Name>, i: nat, run: Run)
    requires Sound(visit)
    requires i <= |names|
    ensures Continues(run, WalkEntries(root, visit, fuel, dir, names, i, run).run)
    decreases fuel, 0, |names| - i
  {
    if i == |names| {
      ContinuesRefl(run);
    } else {
      var name := names[i];
      var p := dir + [name];
      match Lookup(run.fs, p)
      case None => ContinuesRefl(run);
      case Some(Dir(_)) =>
        if IsReservedName(name) || fuel == 0 {
          WalkEntriesContinues(root, visit, fuel, dir, names, i + 1, run);
        } else {
          WalkDirContinues(root, visit, fuel - 1, p, run);
          match WalkDir(root, visit, fuel - 1, p, run)
          case Crashed(_, _) =>
          case Done(r) =>
            WalkEntriesContinues(root, visit, fuel, dir, names, i + 1, r);
            ContinuesTrans(run, r, WalkEntries(root, visit, fuel, dir, names, i + 1, r).run);
        }
      case Some(File(_)) =>
        if MatchesImagePattern(PathText(root, p)) && !SkippedByPathCheck(root, dir, name) {
          VisitContinues(visit, run, p);
          match visit(run, p)
          case Crashed(_, _) =>
          case Done(r) =>
            WalkEntriesContinues(root, visit, fuel, dir, names, i + 1, r);
            ContinuesTrans(run, r, WalkEntries(root, visit, fuel, dir, names, i + 1, r).run);
        } else {
          WalkEntriesContinues(root, visit, fuel, dir, names, i + 1, run);
        }
    }
  }

  /** Lines 22-24 (and 25-27): `if (!fs.existsSync(x)) fs.mkdirSync(x,
      {recursive: true})` for a folder `x` directly in the root folder. */
  function EnsureFolder(t: Node, x: Path): (r: Result<Node, FsError>)
    requires |x| == 1
    ensures r.Err? <==> t.File?
    ensures r.Ok? ==> Exists(r.value, x)
    ensures r.Ok? && Exists(t, x) ==> r.value == t
    ensures r.Ok? && !Exists(t, x) ==> IsDir(r.value, x)
    ensures r.Ok? ==> forall q :: q != [] && q != x ==> Lookup(r.value, q) == Lookup(t, q)
    ensures r.Ok? ==> DirsKept(t, r.value)
    ensures r.Ok? && Wf(t) && ValidPath(x) ==> Wf(r.value)
  {
    assert x[..0] == [] && x[..1] == x;
    if Exists(t, x) then Ok(t) else MkdirP(t, x)
  }

  lemma StagingPathsValid()
    ensures ValidPath(BackupDir) && ValidPath(TempDir)
  {
    assert IsSegment("backup") && IsSegment("temp");
  }

  /** Lines 20-27: create `backup` and `temp` in the root folder unless
      something of that name is already there. */
  function Stage(t: Node): (r: Result<Node, FsError>)
    ensures r.Err? <==> t.File?
    ensures r.Ok? ==> Exists(r.value, BackupDir) && Exists(r.value, TempDir)
    ensures r.Ok? && Exists(t, BackupDir) ==> Lookup(r.value, BackupDir) == Lookup(t, BackupDir)
    ensures r.Ok? && Exists(t, TempDir) ==> Lookup(r.value, TempDir) == Lookup(t, TempDir)
    ensures r.Ok? && !Exists(t, BackupDir) ==> IsDir(r.value, BackupDir)
    ensures r.Ok? && !Exists(t, TempDir) ==> IsDir(r.value, TempDir)
    ensures r.Ok? && Exists(t, BackupDir) && Exists(t, TempDir) ==> r.value == t
    ensures r.Ok? ==> forall q :: q != [] && q != BackupDir && q != TempDir ==> Lookup(r.value, q) == Lookup(t, q)
    ensures r.Ok? ==> DirsKept(t, r.value)
    ensures r.Ok? && Wf(t) ==> Wf(r.value)
  {
    StagingPathsValid();
    match EnsureFolder(t, BackupDir)
    case Err(e) => Err(e)
    case Ok(t1) =>
      assert IsDir(t, []) && IsDir(t1, []);
      var r := EnsureFolder(t1, TempDir);
      assert r.Ok? ==> Lookup(r.value, BackupDir) == Lookup(t1, BackupDir);
      assert r.Ok? ==> forall q :: IsDir(t, q) ==> IsDir(t1, q) && IsDir(r.value, q);
      r
  }

  /** Lines 90-92: remove `temp` and everything in it, if it exists. */
  function Teardown(t: Node): (r: Node)
    ensures !Exists(r, TempDir)
    ensures forall q :: q != [] && !(TempDir <= q) ==> Lookup(r, q) == Lookup(t, q)
  {
    if Exists(t, TempDir) then RemoveTree(t, TempDir).value else t
  }

  /** compressImages (lines 18-98): stage, count (line 80), walk from the
      root folder (line 88) and tear down; any throw ends the run in the
      outer catch with `temp` left in place. The walk's depth bound is the
      height of the staged tree. */
  function CompressImages(env: Env, t: Node): (o: Outcome)
    ensures t.File? ==> o == Aborted(Run(t, 0, []), FsError(NotADirectory, []))
    ensures t.Dir? ==> Stage(t).Ok?
    ensures o.Finished? ==> !Exists(o.run.fs, TempDir) && o.total == |Found(env.root, Stage(t).value, [], 0, false)|
  {
    match Stage(t)
    case Err(e) => Aborted(Run(t, 0, []), e)
    case Ok(s) =>
      var start := Run(s, 0, []);
      match CountFiles(env.root, s)
      case Err(e) => Aborted(start, e)
      case Ok(total) =>
        match WalkDir(env.root, FileStep(env), Height(s), [], start)
        case Crashed(r, e) => Aborted(r, e)
        case Done(r) => Finished(Run(Teardown(r.fs), r.ticks, r.attempts), total)
  }
}

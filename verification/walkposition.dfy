/** Where the walk of index.js:34-78 stands against the tree as it was
    staged: the entries still to come, and what the live tree must still
    show of them. `WalkProof` carries these from one entry to the next. */
module WalkPosition {
  import opened Wrappers
  import opened Text
  import opened FileSystem
  import opened Classifier
  import opened Walker

  /** `q` lies outside both staging folders and is neither above nor below
      `x`. */
  ghost predicate Away(q: Path, x: Path)
  {
    q != [] && !IsReservedName(q[0]) && !(q <= x) && !(x <= q)
  }

  /** Whatever stood at `backup` or `temp` in `t1` still stands in `t2`. */
  ghost predicate TopKept(t1: Node, t2: Node)
  {
    && (Exists(t1, ["backup"]) ==> Exists(t2, ["backup"]))
    && (Exists(t1, ["temp"]) ==> Exists(t2, ["temp"]))
  }

  /** Paths the walk has still to reach from entry `i` of the directory `d`
      at `dir`; at the root, the staging folders are left out. */
  ghost predicate Pending(d: Node, dir: Path, i: nat, q: Path)
    requires d.Dir?
  {
    && |dir| < |q| && q[..|dir|] == dir
    && !(dir == [] && IsReservedName(q[0]))
    && (match IndexOf(d.entries, q[|dir|])
        case Some(j) => j >= i
        case None => false)
  }

  /** The live tree still shows the staged tree at every pending path. */
  ghost predicate Agrees(snap: Node, live: Node, d: Node, dir: Path, i: nat)
    requires d.Dir?
  {
    && (forall q {:trigger Pending(d, dir, i, q)} :: Pending(d, dir, i, q) ==> Lookup(live, q) == Lookup(snap, q))
    && TopKept(snap, live)
  }

  /** The walk stands at entry `i` of the directory `d`, listed at `dir` in
      the staged tree `snap`, with enough fuel for what lies below, and the
      live tree agrees with the staged one on everything still to come. */
  ghost predicate AtEntry(snap: Node, fuel: nat, d: Node, dir: Path, i: nat, live: Node)
  {
    && Lookup(snap, dir) == Some(d) && d.Dir? && Wf(d) && i <= |d.entries|
    && Height(d) <= fuel
    && (dir == [] || !IsReservedName(dir[0]))
    && Agrees(snap, live, d, dir, i)
  }
}

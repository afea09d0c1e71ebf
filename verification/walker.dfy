/** What the two traversals of index.js see in a directory tree: the count
    `countFiles` (lines 100-113) feeds to the progress bar, and the list of
    files `processDirectory` (lines 34-78) hands to the compressor, in the
    order it reaches them. Both are read off the tree as it stands when the
    walk starts; `WalkProof` shows that the walk over the changing tree
    visits exactly this list. */
module Walker {
  import opened Wrappers
  import opened Text
  import opened FileSystem
  import opened Classifier

  /** The longest chain of directories below `t`. */
  function Height(t: Node): (h: nat)
    decreases t
  {
    match t
    case File(_) => 0
    case Dir(es) => 1 + HeightFrom(t, 0)
  }

  function HeightFrom(d: Node, i: nat): (h: nat)
    requires d.Dir? && i <= |d.entries|
    ensures forall j {:trigger Height(d.entries[j].node)} :: i <= j < |d.entries| ==> Height(d.entries[j].node) <= h
    decreases d, |d.entries| - i
  {
    if i == |d.entries| then 0
    else
      var here := Height(d.entries[i].node);
      var rest := HeightFrom(d, i + 1);
      if here < rest then rest else here
  }

  /** Lines 100-113: `countFiles` from entry `i` of the directory `d`, listed
      at `dir`. It descends into every directory, `backup` and `temp`
      included, and counts the files whose path text matches the image
      pattern. */
  function CountFrom(root: Path, d: Node, dir: Path, i: nat): (n: nat)
    requires d.Dir? && i <= |d.entries|
    decreases d, |d.entries| - i
  {
    if i == |d.entries| then 0
    else
      var e := d.entries[i];
      var here :=
        match e.node
        case Dir(_) => CountFrom(root, e.node, dir + [e.name], 0)
        case File(_) => if MatchesImagePattern(PathText(root, dir + [e.name])) then 1 else 0;
      here + CountFrom(root, d, dir, i + 1)
  }

  /** `countFiles(folderPath)`: `readdirSync` throws on a root that is a
      file. */
  function CountFiles(root: Path, t: Node): (r: Result<nat, FsError>)
    ensures r.Err? <==> t.File?
    ensures r.Ok? ==> r.value == |Found(root, t, [], 0, false)|
  {
    match t
    case File(_) => Err(FsError(NotADirectory, []))
    case Dir(_) =>
      CountIsFound(root, t, [], 0);
      Ok(CountFrom(root, t, [], 0))
  }

  /** The image files below entry `i` of `d`, in the order a depth-first
      walk over the listing meets them. With `skip` set it is the walk of
      lines 34-78: reserved directories are not entered (line 41) and files
      the path check of line 45 rejects are passed over. Without `skip` it is
      what `countFiles` counts. */
  function Found(root: Path, d: Node, dir: Path, i: nat, skip: bool): (ps: seq<Path>)
    requires d.Dir? && i <= |d.entries|
    ensures forall k :: 0 <= k < |ps| ==> ps[k] != []
    decreases d, |d.entries| - i
  {
    if i == |d.entries| then []
    else
      var e := d.entries[i];
      var p := dir + [e.name];
      var here :=
        match e.node
        case Dir(_) =>
          if skip && IsReservedName(e.name) then [] else Found(root, e.node, p, 0, skip)
        case File(_) => if Accepted(root, p, skip) then [p] else [];
      here + Found(root, d, dir, i + 1, skip)
  }

  /** Everything `Found` lists lies strictly below `dir`. */
  lemma {:induction false} FoundBelow(root: Path, d: Node, dir: Path, i: nat, skip: bool)
    requires d.Dir? && i <= |d.entries|
    ensures forall k :: 0 <= k < |Found(root, d, dir, i, skip)| ==> dir < Found(root, d, dir, i, skip)[k]
    decreases d, |d.entries| - i
  {
    if i < |d.entries| {
      var e := d.entries[i];
      var q := dir + [e.name];
      var rest := Found(root, d, dir, i + 1, skip);
      FoundBelow(root, d, dir, i + 1, skip);
      var here := if e.node.Dir? then (if skip && IsReservedName(e.name) then [] else Found(root, e.node, q, 0, skip))
        else if Accepted(root, q, skip) then [q] else [];
      assert Found(root, d, dir, i, skip) == here + rest;
      assert dir < q;
      if e.node.Dir? && !(skip && IsReservedName(e.name)) {
        FoundBelow(root, e.node, q, 0, skip);
      }
      forall k | 0 <= k < |here|
        ensures dir < here[k]
      {
        assert q <= here[k];
      }
    }
  }

  /** The files the walk of lines 34-78 attempts, starting at the root
      folder `t`. */
  function Plan(root: Path, t: Node): seq<Path>
  {
    if t.Dir? then Found(root, t, [], 0, true) else []
  }

  /** The independent description of a file `p` that `Found` lists: it lies
      below one of the entries `i..` of `d` (at `dir`), it is a file there,
      its text matches the image pattern, and, with `skip`, no directory
      between `dir` and the file is reserved and the path check lets it
      through. */
  ghost predicate Selected(root: Path, d: Node, dir: Path, i: nat, skip: bool, p: Path)
    requires d.Dir?
  {
    && |dir| < |p| && p[..|dir|] == dir
    && (match IndexOf(d.entries, p[|dir|])
        case Some(j) => j >= i
        case None => false)
    && IsFile(d, p[|dir|..])
    && Accepted(root, p, skip)
    && (skip ==> NoReservedBetween(p, |dir|))
  }

  /** The file tests of the walk: the image pattern of line 44 (line 108
      for `countFiles`) and, with `skip`, the path check of line 45. */
  predicate Accepted(root: Path, p: Path, skip: bool)
    requires p != []
  {
    MatchesImagePattern(PathText(root, p)) && !(skip && SkippedByPathCheck(root, Parent(p), p[|p| - 1]))
  }

  /** No directory segment of `p` from position `k` on is `backup` or
      `temp`. */
  ghost predicate NoReservedBetween(p: Path, k: nat)
  {
    forall m :: k <= m < |p| - 1 ==> !IsReservedName(p[m])
  }

  predicate Distinct(ps: seq<Path>)
  {
    forall a, b :: 0 <= a < b < |ps| ==> ps[a] != ps[b]
  }

  /** `countFiles` counts exactly the entries the unfiltered traversal
      lists. */
  lemma {:induction false} CountIsFound(root: Path, d: Node, dir: Path, i: nat)
    requires d.Dir? && i <= |d.entries|
    ensures CountFrom(root, d, dir, i) == |Found(root, d, dir, i, false)|
    decreases d, |d.entries| - i
  {
    if i < |d.entries| {
      var e := d.entries[i];
      if e.node.Dir? {
        CountIsFound(root, e.node, dir + [e.name], 0);
      }
      CountIsFound(root, d, dir, i + 1);
    }
  }

  /** Stepping into entry `i` of a well-formed directory: the paths below
      it are looked up in its own node. */
  lemma EntryLookup(d: Node, i: nat, rest: Path)
    requires d.Dir? && Wf(d) && i < |d.entries|
    ensures IndexOf(d.entries, d.entries[i].name) == Some(i)
    ensures Lookup(d, [d.entries[i].name] + rest) == Lookup(d.entries[i].node, rest)
  {
    var es := d.entries;
    assert forall j :: 0 <= j < i ==> NameAt(es, j) != NameAt(es, i) && es[j].name != es[i].name;
    assert ([es[i].name] + rest)[1..] == rest;
  }

  /** Every path `Found` lists is selected. */
  lemma {:induction false} FoundSound(root: Path, d: Node, dir: Path, i: nat, skip: bool, p: Path)
    requires d.Dir? && Wf(d) && i <= |d.entries|
    requires p in Found(root, d, dir, i, skip)
    ensures Selected(root, d, dir, i, skip, p)
    decreases d, |d.entries| - i
  {
    var e := d.entries[i];
    var q := dir + [e.name];
    var rest := Found(root, d, dir, i + 1, skip);
    if p in rest {
      FoundSound(root, d, dir, i + 1, skip, p);
    } else if e.node.Dir? {
      var here := if skip && IsReservedName(e.name) then [] else Found(root, e.node, q, 0, skip);
      assert Found(root, d, dir, i, skip) == here + rest;
      assert p in here;
      FoundSound(root, e.node, q, 0, skip, p);
      SelectedBelowEntry(root, d, dir, i, skip, p);
    } else {
      assert p == q && Accepted(root, q, skip) by {
        assert Found(root, d, dir, i, skip) == (if Accepted(root, q, skip) then [q] else []) + rest;
      }
      SelectedFileEntry(root, d, dir, i, skip);
    }
  }

  /** A file entry `i` of `d` that passes the file tests is selected. */
  lemma SelectedFileEntry(root: Path, d: Node, dir: Path, i: nat, skip: bool)
    requires d.Dir? && Wf(d) && i < |d.entries| && d.entries[i].node.File?
    requires Accepted(root, dir + [d.entries[i].name], skip)
    ensures Selected(root, d, dir, i, skip, dir + [d.entries[i].name])
  {
    var e := d.entries[i];
    var q := dir + [e.name];
    EntryLookup(d, i, []);
    assert q[..|dir|] == dir;
    assert q[|dir|..] == [e.name] + [];
  }

  /** A path selected inside the directory entry `i` is selected in `d`. */
  lemma SelectedBelowEntry(root: Path, d: Node, dir: Path, i: nat, skip: bool, p: Path)
    requires d.Dir? && Wf(d) && i < |d.entries|
    requires d.entries[i].node.Dir? && !(skip && IsReservedName(d.entries[i].name))
    requires Selected(root, d.entries[i].node, dir + [d.entries[i].name], 0, skip, p)
    ensures Selected(root, d, dir, i, skip, p)
  {
    var e := d.entries[i];
    var q := dir + [e.name];
    EntryLookup(d, i, p[|q|..]);
    assert p[..|dir|] == dir && p[|dir|] == e.name by {
      assert p[..|q|] == q;
      assert p[..|dir|] == p[..|q|][..|dir|];
    }
    assert p[|dir|..] == [e.name] + p[|q|..];
    assert skip ==> NoReservedBetween(p, |dir|) by {
      if skip {
        assert !IsReservedName(p[|dir|]);
      }
    }
  }

  /** Every selected path is listed by `Found`. */
  lemma {:induction false} FoundComplete(root: Path, d: Node, dir: Path, i: nat, skip: bool, p: Path)
    requires d.Dir? && Wf(d) && i <= |d.entries|
    requires Selected(root, d, dir, i, skip, p)
    ensures p in Found(root, d, dir, i, skip)
    decreases d, |d.entries| - i
  {
    var j := IndexOf(d.entries, p[|dir|]).value;
    var e := d.entries[i];
    var q := dir + [e.name];
    var rest := Found(root, d, dir, i + 1, skip);
    var here := if e.node.Dir? then (if skip && IsReservedName(e.name) then [] else Found(root, e.node, q, 0, skip))
      else if Accepted(root, q, skip) then [q] else [];
    assert Found(root, d, dir, i, skip) == here + rest;
    if j > i {
      FoundComplete(root, d, dir, i + 1, skip, p);
    } else {
      SelectedAtEntry(root, d, dir, i, skip, p);
      if |p| > |q| {
        FoundComplete(root, e.node, q, 0, skip, p);
      }
      assert p in here;
    }
  }

  /** A path selected at entry `i` itself is that entry, a file passing
      the file tests, or lies inside it, a directory the walk enters. */
  lemma SelectedAtEntry(root: Path, d: Node, dir: Path, i: nat, skip: bool, p: Path)
    requires d.Dir? && Wf(d) && i < |d.entries|
    requires Selected(root, d, dir, i, skip, p) && IndexOf(d.entries, p[|dir|]) == Some(i)
    ensures |p| == |dir| + 1 ==> p == dir + [d.entries[i].name] && d.entries[i].node.File? && Accepted(root, p, skip)
    ensures |p| > |dir| + 1 ==>
      && d.entries[i].node.Dir? && !(skip && IsReservedName(d.entries[i].name))
      && Selected(root, d.entries[i].node, dir + [d.entries[i].name], 0, skip, p)
  {
    var e := d.entries[i];
    var q := dir + [e.name];
    EntryLookup(d, i, p[|dir| + 1..]);
    assert p[|dir|..] == [e.name] + p[|dir| + 1..];
    if |p| == |q| {
      assert p == q;
      assert p[|dir| + 1..] == [];
    } else {
      assert p[..|q|] == q;
      assert p[|q|..] == p[|dir| + 1..];
      assert skip ==> !IsReservedName(e.name) by {
        if skip {
          assert !IsReservedName(p[|dir|]);
        }
      }
    }
  }

  /** `Found` lists exactly the selected paths. */
  lemma FoundExactly(root: Path, d: Node, dir: Path, i: nat, skip: bool)
    requires d.Dir? && Wf(d) && i <= |d.entries|
    ensures forall p :: p in Found(root, d, dir, i, skip) <==> Selected(root, d, dir, i, skip, p)
  {
    forall p
      ensures p in Found(root, d, dir, i, skip) <==> Selected(root, d, dir, i, skip, p)
    {
      if p in Found(root, d, dir, i, skip) {
        FoundSound(root, d, dir, i, skip, p);
      }
      if Selected(root, d, dir, i, skip, p) {
        FoundComplete(root, d, dir, i, skip, p);
      }
    }
  }

  /** Every file the walk plans is an image file of the tree, no folder on
      its way is named `backup` or `temp`, its own name matches the image
      pattern and does not begin with "backup" or "temp". */
  lemma PlanAvoidsStaging(root: Path, t: Node, p: Path)
    requires Wf(t) && t.Dir? && p in Plan(root, t)
    ensures p != [] && IsFile(t, p)
    ensures forall m :: 0 <= m < |p| - 1 ==> !IsReservedName(p[m])
    ensures MatchesImagePattern(p[|p| - 1])
    ensures !StartsWith(p[|p| - 1], "backup") && !StartsWith(p[|p| - 1], "temp")
  {
    FoundSound(root, t, [], 0, true, p);
    assert p[0..] == p;
    ExistingPathIsValid(t, p);
    AcceptedName(root, p);
  }

  /** The walk's file tests read on the file's own name. At the top of a
      root folder "." the path check rejects more names, those containing
      "backup" or "temp" anywhere, so there too no accepted name begins with
      either. */
  lemma AcceptedName(root: Path, p: Path)
    requires p != [] && IsSegment(p[|p| - 1]) && Accepted(root, p, true)
    ensures MatchesImagePattern(p[|p| - 1])
    ensures !StartsWith(p[|p| - 1], "backup") && !StartsWith(p[|p| - 1], "temp")
  {
    var name := p[|p| - 1];
    assert Parent(p) + [name] == p;
    PatternSeesOnlyTheName(root, Parent(p), name);
    if root + Parent(p) != [] {
      PathCheckIsNamePrefix(root, Parent(p), name);
    } else {
      assert root == [] && Parent(p) == [];
      PathCheckAtDotRoot(name);
      StartsWithContains(name, "backup");
      StartsWithContains(name, "temp");
    }
  }

  /** Two lists without repeats and without a common path join into one
      without repeats. */
  lemma DistinctAppend(a: seq<Path>, b: seq<Path>)
    requires Distinct(a) && Distinct(b)
    requires forall x, y :: 0 <= x < |a| && 0 <= y < |b| ==> a[x] != b[y]
    ensures Distinct(a + b)
  {
    forall x, y | 0 <= x < y < |a + b|
      ensures (a + b)[x] != (a + b)[y]
    {
      if y < |a| {
        assert (a + b)[x] == a[x] && (a + b)[y] == a[y];
      } else if x < |a| {
        assert (a + b)[x] == a[x] && (a + b)[y] == b[y - |a|];
      } else {
        assert (a + b)[x] == b[x - |a|] && (a + b)[y] == b[y - |a|];
      }
    }
  }

  /** In a well-formed tree no path is listed twice. */
  lemma {:induction false} FoundDistinct(root: Path, d: Node, dir: Path, i: nat, skip: bool)
    requires d.Dir? && Wf(d) && i <= |d.entries|
    ensures Distinct(Found(root, d, dir, i, skip))
    decreases d, |d.entries| - i
  {
    if i < |d.entries| {
      var e := d.entries[i];
      var q := dir + [e.name];
      var rest := Found(root, d, dir, i + 1, skip);
      var here := if e.node.Dir? then (if skip && IsReservedName(e.name) then [] else Found(root, e.node, q, 0, skip))
        else if Accepted(root, q, skip) then [q] else [];
      assert Found(root, d, dir, i, skip) == here + rest;
      FoundDistinct(root, d, dir, i + 1, skip);
      if e.node.Dir? && !(skip && IsReservedName(e.name)) {
        FoundDistinct(root, e.node, q, 0, skip);
        FoundBelow(root, e.node, q, 0, skip);
      }
      forall x, y | 0 <= x < |here| && 0 <= y < |rest|
        ensures here[x] != rest[y]
      {
        assert q <= here[x];
        LaterEntry(root, d, dir, i, skip, rest[y]);
      }
      DistinctAppend(here, rest);
    }
  }

  /** What `Found` lists after entry `i` does not pass through it. */
  lemma LaterEntry(root: Path, d: Node, dir: Path, i: nat, skip: bool, p: Path)
    requires d.Dir? && Wf(d) && i < |d.entries|
    requires p in Found(root, d, dir, i + 1, skip)
    ensures |dir| < |p| && p[|dir|] != d.entries[i].name
  {
    FoundSound(root, d, dir, i + 1, skip, p);
  }

  /** The walk lists no more files than `countFiles` counts. */
  lemma {:induction false} FoundFewer(root: Path, d: Node, dir: Path, i: nat)
    requires d.Dir? && i <= |d.entries|
    ensures |Found(root, d, dir, i, true)| <= |Found(root, d, dir, i, false)|
    decreases d, |d.entries| - i
  {
    if i < |d.entries| {
      var e := d.entries[i];
      if e.node.Dir? {
        FoundFewer(root, e.node, dir + [e.name], 0);
      }
      FoundFewer(root, d, dir, i + 1);
    }
  }

  /** The plan for a well-formed tree repeats no path and is no longer
      than the count `countFiles` returns for it. */
  lemma PlanFacts(root: Path, t: Node)
    requires Wf(t) && t.Dir?
    ensures Distinct(Plan(root, t))
    ensures CountFiles(root, t) == Ok(|Found(root, t, [], 0, false)|)
    ensures |Plan(root, t)| <= CountFiles(root, t).value
  {
    FoundDistinct(root, t, [], 0, true);
    FoundFewer(root, t, [], 0);
  }
}

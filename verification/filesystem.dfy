/** An immutable model of the part of the filesystem a run touches: a tree of
    directories whose entries keep the order `fs.readdirSync` lists them in,
    the lookups `fs.existsSync`/`fs.statSync` make, and the mutating calls
    index.js issues (`mkdirSync` with `recursive`, `copyFileSync`,
    `unlinkSync`, `renameSync`, `rmSync` with `recursive`). Each call either
    returns the new tree or the error it would throw. Every call comes with a
    frame lemma: it changes nothing at any path that is not the target or one
    of the target's ancestors. */
module FileSystem {
  import opened Wrappers
  import Text

  newtype byte = b: int | 0 <= b < 256

  /** The bytes of a file. */
  type Content = seq<byte>

  /** One path segment. */
  type Name = string

  /** A path relative to the run's root folder, as its list of segments. */
  type Path = seq<Name>

  datatype Node = File(data: Content) | Dir(entries: seq<Entry>)

  datatype Entry = Entry(name: Name, node: Node)

  datatype ErrorCode = Missing | NotADirectory | AlreadyExists | IsADirectory

  /** What a failing filesystem call throws: the POSIX condition and the path. */
  datatype FsError = FsError(code: ErrorCode, path: Path)

  /** The position of the first entry called `n`, if any. */
  function IndexOf(es: seq<Entry>, n: Name): (r: Option<nat>)
    ensures r.Some? ==> r.value < |es| && es[r.value].name == n
    ensures r.Some? ==> forall j {:trigger es[j].name} :: 0 <= j < r.value ==> es[j].name != n
    ensures r.None? ==> forall j {:trigger es[j].name} :: 0 <= j < |es| ==> es[j].name != n
  {
    if |es| == 0 then None
    else if es[0].name == n then Some(0)
    else
      match IndexOf(es[1..], n)
      case None => None
      case Some(j) => Some(j + 1)
  }

  /** The node found by following `p` from `t`. */
  function Lookup(t: Node, p: Path): Option<Node>
    decreases t
  {
    if p == [] then Some(t)
    else
      match t
      case File(_) => None
      case Dir(es) =>
        match IndexOf(es, p[0])
        case None => None
        case Some(i) => Lookup(es[i].node, p[1..])
  }

  /** `fs.existsSync`. */
  predicate Exists(t: Node, p: Path)
  {
    Lookup(t, p).Some?
  }

  predicate IsFile(t: Node, p: Path)
  {
    Lookup(t, p).Some? && Lookup(t, p).value.File?
  }

  predicate IsDir(t: Node, p: Path)
  {
    Lookup(t, p).Some? && Lookup(t, p).value.Dir?
  }

  /** `path.dirname`. */
  function Parent(p: Path): Path
    requires p != []
  {
    p[..|p| - 1]
  }

  /** `t2` agrees with `t1` at every path that is neither `p` nor one of
      its ancestors. */
  ghost predicate SameOutside(t1: Node, t2: Node, p: Path)
  {
    forall q :: !(q <= p) ==> Lookup(t2, q) == Lookup(t1, q)
  }

  /** No directory of `t1` is gone or turned into a file in `t2`. */
  ghost predicate DirsKept(t1: Node, t2: Node)
  {
    forall q :: IsDir(t1, q) ==> IsDir(t2, q)
  }

  /** The name of entry `i`. Distinctness in `Wf` is stated over this
      function so that it only applies to the entries a proof points at. */
  function NameAt(es: seq<Entry>, i: nat): Name
    requires i < |es|
  {
    es[i].name
  }

  /** Real directories list each name once, and names are single segments. */
  predicate Wf(t: Node)
    decreases t
  {
    match t
    case File(_) => true
    case Dir(es) =>
      && (forall i, j {:trigger NameAt(es, i), NameAt(es, j)} :: 0 <= i < j < |es| ==> NameAt(es, i) != NameAt(es, j))
      && (forall i :: 0 <= i < |es| ==> es[i].name != "" && Text.IsSegment(es[i].name))
      && (forall i :: 0 <= i < |es| ==> Wf(es[i].node))
  }

  /** Every segment of `p` is a name a directory entry can have. */
  predicate ValidPath(p: Path)
  {
    forall k :: 0 <= k < |p| ==> p[k] != "" && Text.IsSegment(p[k])
  }

  /** Nothing along `x` is a file and `x` is not a directory: a recursive
      mkdir of `x`'s parent succeeds and a file can then be written at `x`. */
  ghost predicate Writable(t: Node, x: Path)
  {
    (forall j :: 0 <= j < |x| ==> !IsFile(t, x[..j])) && !IsDir(t, x)
  }

  // ---------------------------------------------------------------------
  // Primitive updates

  /** Places `n` at `p`: the entry named `p`'s last segment is replaced in
      place, or appended when the parent directory has none. A missing
      parent leaves the tree as it is. */
  function Put(t: Node, p: Path, n: Node): Node
    decreases t
  {
    if p == [] then n
    else
      match t
      case File(_) => t
      case Dir(es) =>
        match IndexOf(es, p[0])
        case Some(i) => Dir(es[i := Entry(p[0], Put(es[i].node, p[1..], n))])
        case None => if |p| == 1 then Dir(es + [Entry(p[0], n)]) else t
  }

  /** The entries of `es` not called `n`, in order. */
  function Without(es: seq<Entry>, n: Name): (r: seq<Entry>)
    ensures forall j :: 0 <= j < |r| ==> r[j].name != n
  {
    if |es| == 0 then []
    else (if es[0].name == n then [] else [es[0]]) + Without(es[1..], n)
  }

  /** Removes whatever is at `p`. */
  function Delete(t: Node, p: Path): Node
    requires p != []
    decreases t
  {
    match t
    case File(_) => t
    case Dir(es) =>
      if |p| == 1 then Dir(Without(es, p[0]))
      else
        match IndexOf(es, p[0])
        case None => t
        case Some(i) => Dir(es[i := Entry(p[0], Delete(es[i].node, p[1..]))])
  }

  // ---------------------------------------------------------------------
  // Facts about entry lists

  lemma {:induction false} IndexOfSameNames(es1: seq<Entry>, es2: seq<Entry>, n: Name)
    requires |es1| == |es2|
    requires forall j :: 0 <= j < |es1| ==> es1[j].name == es2[j].name
    ensures IndexOf(es1, n) == IndexOf(es2, n)
  {
    if |es1| > 0 && es1[0].name != n {
      IndexOfSameNames(es1[1..], es2[1..], n);
    }
  }

  lemma {:induction false} IndexOfAppend(es: seq<Entry>, e: Entry, n: Name)
    ensures IndexOf(es + [e], n) ==
      if IndexOf(es, n).Some? then IndexOf(es, n)
      else if e.name == n then Some(|es|)
      else None
  {
    if |es| > 0 && es[0].name != n {
      assert (es + [e])[1..] == es[1..] + [e];
      IndexOfAppend(es[1..], e, n);
    }
  }

  /** Dropping the entries called `n` keeps the first entry called `m != n`. */
  lemma {:induction false} IndexOfWithout(es: seq<Entry>, n: Name, m: Name)
    requires m != n
    ensures IndexOf(Without(es, n), m).Some? == IndexOf(es, m).Some?
    ensures IndexOf(es, m).Some? ==>
      Without(es, n)[IndexOf(Without(es, n), m).value] == es[IndexOf(es, m).value]
  {
    if |es| > 0 {
      IndexOfWithout(es[1..], n, m);
      var head: seq<Entry> := if es[0].name == n then [] else [es[0]];
      assert Without(es, n) == head + Without(es[1..], n);
      if es[0].name == m {
        assert Without(es, n)[0] == es[0];
      } else if es[0].name == n {
        assert Without(es, n) == Without(es[1..], n);
        assert es == [es[0]] + es[1..];
        IndexOfCons(es[0], es[1..], m);
      } else {
        var w := Without(es[1..], n);
        assert Without(es, n) == [es[0]] + w;
        IndexOfCons(es[0], w, m);
      }
    }
  }

  lemma IndexOfCons(e: Entry, es: seq<Entry>, m: Name)
    requires e.name != m
    ensures IndexOf([e] + es, m) ==
      match IndexOf(es, m) case None => None case Some(j) => Some(j + 1)
  {
    assert ([e] + es)[1..] == es;
  }

  // ---------------------------------------------------------------------
  // Lookup below non-directories

  /** Nothing lies below a path that is missing or holds a file. */
  lemma {:induction false} LookupBelowNonDir(t: Node, p: Path, q: Path)
    requires !IsDir(t, p)
    requires p < q
    ensures Lookup(t, q) == None
    decreases t
  {
    if p != [] && t.Dir? {
      match IndexOf(t.entries, p[0])
      case None =>
      case Some(i) =>
        assert q[0] == p[0];
        LookupBelowNonDir(t.entries[i].node, p[1..], q[1..]);
    }
  }

  lemma LookupBelowDescend(t: Node, p: Path, q: Path)
    requires p <= q
    requires Lookup(t, p).Some?
    ensures Lookup(t, q) == Lookup(Lookup(t, p).value, q[|p|..])
    decreases t
  {
    if p != [] && t.Dir? {
      match IndexOf(t.entries, p[0])
      case None =>
      case Some(i) =>
        assert q[0] == p[0];
        LookupBelowDescend(t.entries[i].node, p[1..], q[1..]);
        assert q[1..][|p| - 1..] == q[|p|..];
    }
  }

  // ---------------------------------------------------------------------
  // Lookup after Put

  lemma {:induction false} LookupPutUnrelated(t: Node, p: Path, n: Node, q: Path)
    requires !(q <= p) && !(p <= q)
    ensures Lookup(Put(t, p, n), q) == Lookup(t, q)
    decreases t
  {
    match t
    case File(_) =>
    case Dir(es) =>
      match IndexOf(es, p[0])
      case Some(i) =>
        var es' := es[i := Entry(p[0], Put(es[i].node, p[1..], n))];
        IndexOfSameNames(es, es', q[0]);
        if q[0] == p[0] {
          LookupPutUnrelated(es[i].node, p[1..], n, q[1..]);
        }
      case None =>
        if |p| == 1 {
          IndexOfAppend(es, Entry(p[0], n), q[0]);
          match IndexOf(es, q[0])
          case None =>
          case Some(j) =>
            assert (es + [Entry(p[0], n)])[j] == es[j];
        }
  }

  lemma {:induction false} LookupPutBelow(t: Node, p: Path, n: Node, q: Path)
    requires p <= q
    requires p == [] || IsDir(t, Parent(p))
    ensures Lookup(Put(t, p, n), q) == Lookup(n, q[|p|..])
    decreases t
  {
    if p != [] {
      match t
      case File(_) =>
      case Dir(es) =>
        assert q[0] == p[0];
        match IndexOf(es, p[0])
        case Some(i) =>
          var es' := es[i := Entry(p[0], Put(es[i].node, p[1..], n))];
          IndexOfSameNames(es, es', q[0]);
          if |p| > 1 {
            assert Parent(p)[0] == p[0] && Parent(p)[1..] == Parent(p[1..]);
          }
          LookupPutBelow(es[i].node, p[1..], n, q[1..]);
          assert q[1..][|p| - 1..] == q[|p|..];
        case None =>
          if |p| == 1 {
            IndexOfAppend(es, Entry(p[0], n), q[0]);
            assert q[1..] == q[|p|..];
          }
    }
  }

  lemma {:induction false} LookupPutAbove(t: Node, p: Path, n: Node, q: Path)
    requires q < p
    requires IsDir(t, q)
    ensures IsDir(Put(t, p, n), q)
    decreases t
  {
    match t
    case File(_) =>
    case Dir(es) =>
      if q != [] {
        assert q[0] == p[0];
        match IndexOf(es, p[0])
        case Some(i) =>
          var es' := es[i := Entry(p[0], Put(es[i].node, p[1..], n))];
          IndexOfSameNames(es, es', q[0]);
          LookupPutAbove(es[i].node, p[1..], n, q[1..]);
        case None =>
      }
  }

  // ---------------------------------------------------------------------
  // Lookup after Delete

  lemma {:induction false} LookupDeleteUnrelated(t: Node, p: Path, q: Path)
    requires p != []
    requires !(q <= p) && !(p <= q)
    ensures Lookup(Delete(t, p), q) == Lookup(t, q)
    decreases t
  {
    match t
    case File(_) =>
    case Dir(es) =>
      if |p| == 1 {
        IndexOfWithout(es, p[0], q[0]);
      } else {
        match IndexOf(es, p[0])
        case None =>
        case Some(i) =>
          var es' := es[i := Entry(p[0], Delete(es[i].node, p[1..]))];
          IndexOfSameNames(es, es', q[0]);
          if q[0] == p[0] {
            LookupDeleteUnrelated(es[i].node, p[1..], q[1..]);
          }
      }
  }

  lemma {:induction false} LookupDeleteBelow(t: Node, p: Path, q: Path)
    requires p != []
    requires p <= q
    ensures Lookup(Delete(t, p), q) == None
    decreases t
  {
    match t
    case File(_) =>
    case Dir(es) =>
      assert q[0] == p[0];
      if |p| > 1 {
        match IndexOf(es, p[0])
        case None =>
        case Some(i) =>
          var es' := es[i := Entry(p[0], Delete(es[i].node, p[1..]))];
          IndexOfSameNames(es, es', q[0]);
          LookupDeleteBelow(es[i].node, p[1..], q[1..]);
      }
  }

  lemma {:induction false} LookupDeleteAbove(t: Node, p: Path, q: Path)
    requires q < p
    requires IsDir(t, q)
    ensures IsDir(Delete(t, p), q)
    decreases t
  {
    match t
    case File(_) =>
    case Dir(es) =>
      if q != [] {
        assert q[0] == p[0];
        match IndexOf(es, p[0])
        case None =>
        case Some(i) =>
          var es' := es[i := Entry(p[0], Delete(es[i].node, p[1..]))];
          IndexOfSameNames(es, es', q[0]);
          LookupDeleteAbove(es[i].node, p[1..], q[1..]);
      }
  }

  // ---------------------------------------------------------------------
  // Frame facts for the two shapes of update the calls below make

  /** Nothing is at `p`'s ancestors but directories when `p` holds a file. */
  lemma AncestorsOfFileAreDirs(t: Node, p: Path, q: Path)
    requires IsFile(t, p)
    requires q < p
    ensures IsDir(t, q)
  {
    if !IsDir(t, q) {
      LookupBelowNonDir(t, q, p);
    }
  }

  /** Whatever lies above an existing node is a directory. */
  lemma AncestorsAreDirs(t: Node, p: Path, q: Path)
    requires Exists(t, p)
    requires q < p
    ensures IsDir(t, q)
  {
    if !IsDir(t, q) {
      LookupBelowNonDir(t, q, p);
    }
  }

  /** In a well-formed tree every path that leads somewhere is made of
      entry names. */
  lemma {:induction false} ExistingPathIsValid(t: Node, p: Path)
    requires Wf(t) && Exists(t, p)
    ensures ValidPath(p)
    decreases t
  {
    if p != [] {
      var i := IndexOf(t.entries, p[0]).value;
      assert Lookup(t, p) == Lookup(t.entries[i].node, p[1..]);
      ExistingPathIsValid(t.entries[i].node, p[1..]);
      forall k | 0 <= k < |p|
        ensures p[k] != "" && Text.IsSegment(p[k])
      {
        if k > 0 {
          assert p[k] == p[1..][k - 1];
        }
      }
    }
  }

  /** Writing a file where the parent is a directory and no directory sits. */
  lemma PutFileFrame(t: Node, p: Path, c: Content)
    requires p != []
    requires IsDir(t, Parent(p)) && !IsDir(t, p)
    ensures Lookup(Put(t, p, File(c)), p) == Some(File(c))
    ensures SameOutside(t, Put(t, p, File(c)), p)
    ensures DirsKept(t, Put(t, p, File(c)))
  {
    var t' := Put(t, p, File(c));
    LookupPutBelow(t, p, File(c), p);
    forall q | !(q <= p)
      ensures Lookup(t', q) == Lookup(t, q)
    {
      if p <= q {
        LookupPutBelow(t, p, File(c), q);
        LookupBelowNonDir(t, p, q);
      } else {
        LookupPutUnrelated(t, p, File(c), q);
      }
    }
    forall q | IsDir(t, q)
      ensures IsDir(t', q)
    {
      if q < p {
        LookupPutAbove(t, p, File(c), q);
      } else if !(p <= q) {
        LookupPutUnrelated(t, p, File(c), q);
      } else if p != q {
        LookupBelowNonDir(t, p, q);
      }
    }
  }

  /** Creating an empty directory where nothing is. */
  lemma PutDirFrame(t: Node, p: Path)
    requires p != []
    requires IsDir(t, Parent(p)) && !Exists(t, p)
    ensures IsDir(Put(t, p, Dir([])), p)
    ensures forall q :: p < q ==> Lookup(Put(t, p, Dir([])), q) == None
    ensures SameOutside(t, Put(t, p, Dir([])), p)
    ensures DirsKept(t, Put(t, p, Dir([])))
  {
    var t' := Put(t, p, Dir([]));
    LookupPutBelow(t, p, Dir([]), p);
    forall q | p < q
      ensures Lookup(t', q) == None
    {
      LookupPutBelow(t, p, Dir([]), q);
    }
    forall q | !(q <= p)
      ensures Lookup(t', q) == Lookup(t, q)
    {
      if p <= q {
        LookupBelowNonDir(t, p, q);
      } else {
        LookupPutUnrelated(t, p, Dir([]), q);
      }
    }
    forall q | IsDir(t, q)
      ensures IsDir(t', q)
    {
      if q < p {
        LookupPutAbove(t, p, Dir([]), q);
      } else if !(p <= q) {
        LookupPutUnrelated(t, p, Dir([]), q);
      } else if p != q {
        LookupBelowNonDir(t, p, q);
      }
    }
  }

  /** Removing something that is not a directory. */
  lemma DeleteFileFrame(t: Node, p: Path)
    requires p != []
    requires !IsDir(t, p)
    ensures Lookup(Delete(t, p), p) == None
    ensures SameOutside(t, Delete(t, p), p)
    ensures DirsKept(t, Delete(t, p))
    ensures forall q :: IsDir(Delete(t, p), q) ==> IsDir(t, q)
  {
    var t' := Delete(t, p);
    LookupDeleteBelow(t, p, p);
    forall q | !(q <= p)
      ensures Lookup(t', q) == Lookup(t, q)
    {
      if p <= q {
        LookupDeleteBelow(t, p, q);
        LookupBelowNonDir(t, p, q);
      } else {
        LookupDeleteUnrelated(t, p, q);
      }
    }
    forall q | IsDir(t, q)
      ensures IsDir(t', q)
    {
      if q < p {
        LookupDeleteAbove(t, p, q);
      } else if !(p <= q) {
        LookupDeleteUnrelated(t, p, q);
      } else if p != q {
        LookupBelowNonDir(t, p, q);
      }
    }
    forall q | IsDir(t', q)
      ensures IsDir(t, q)
    {
      if p <= q {
        LookupDeleteBelow(t, p, q);
      } else if !(q <= p) {
        LookupDeleteUnrelated(t, p, q);
      } else if !IsDir(t, q) {
        LookupBelowNonDir(t, q, p);
        DeleteAboveMissing(t, p, q);
      }
    }
  }

  /** Deleting below a path that holds no directory changes nothing. */
  lemma {:induction false} DeleteAboveMissing(t: Node, p: Path, q: Path)
    requires p != []
    requires q < p
    requires Lookup(t, p) == None
    ensures Lookup(Delete(t, p), q) == Lookup(t, q)
    decreases t
  {
    match t
    case File(_) =>
    case Dir(es) =>
      if |p| == 1 {
        assert q == [];
        WithoutMissing(es, p[0]);
      } else {
        match IndexOf(es, p[0])
        case None =>
        case Some(i) =>
          var es' := es[i := Entry(p[0], Delete(es[i].node, p[1..]))];
          if q == [] {
            DeleteAboveMissing(es[i].node, p[1..], []);
            assert es' == es;
          } else {
            IndexOfSameNames(es, es', q[0]);
            DeleteAboveMissing(es[i].node, p[1..], q[1..]);
          }
      }
  }

  lemma {:induction false} WithoutMissing(es: seq<Entry>, n: Name)
    requires IndexOf(es, n).None?
    ensures Without(es, n) == es
  {
    if |es| > 0 {
      WithoutMissing(es[1..], n);
      assert es == [es[0]] + es[1..];
    }
  }

  /** Placing a well-formed node along a valid path keeps the tree
      well-formed. */
  lemma {:induction false} PutWf(t: Node, p: Path, n: Node)
    requires Wf(t) && Wf(n) && ValidPath(p)
    ensures Wf(Put(t, p, n))
    decreases t
  {
    if p != [] && t.Dir? {
      var es := t.entries;
      match IndexOf(es, p[0])
      case Some(i) =>
        assert ValidPath(p[1..]) by {
          assert forall k :: 0 <= k < |p| - 1 ==> p[1..][k] == p[k + 1];
        }
        PutWf(es[i].node, p[1..], n);
        var es2 := es[i := Entry(p[0], Put(es[i].node, p[1..], n))];
        assert forall j :: 0 <= j < |es| ==> es2[j].name == es[j].name;
        forall j, k | 0 <= j < k < |es2|
          ensures NameAt(es2, j) != NameAt(es2, k)
        {
          assert NameAt(es, j) != NameAt(es, k);
        }
      case None =>
        if |p| == 1 {
          var es2 := es + [Entry(p[0], n)];
          forall j, k | 0 <= j < k < |es2|
            ensures NameAt(es2, j) != NameAt(es2, k)
          {
            if k < |es| {
              assert NameAt(es, j) != NameAt(es, k);
            }
          }
        }
    }
  }

  // ---------------------------------------------------------------------
  // The calls index.js makes

  /** `fs.readdirSync(p)`: the names in the directory at `p`, in listing
      order. */
  function ReadDir(t: Node, p: Path): (r: Result<seq<Name>, FsError>)
    ensures r.Ok? <==> IsDir(t, p)
    ensures r.Ok? ==> |r.value| == |Lookup(t, p).value.entries|
    ensures r.Ok? ==> forall k :: 0 <= k < |r.value| ==> r.value[k] == Lookup(t, p).value.entries[k].name
  {
    match Lookup(t, p)
    case None => Err(FsError(Missing, p))
    case Some(File(_)) => Err(FsError(NotADirectory, p))
    case Some(Dir(es)) => Ok(Names(es))
  }

  /** The names of the entries, in order. */
  function Names(es: seq<Entry>): (ns: seq<Name>)
    ensures |ns| == |es|
    ensures forall k :: 0 <= k < |es| ==> ns[k] == es[k].name
  {
    seq(|es|, k requires 0 <= k < |es| => es[k].name)
  }

  /** `fs.mkdirSync(p, {recursive: true})`: creates every missing directory
      along `p`; an existing directory is accepted and a file in the way
      throws (EEXIST for `p` itself, ENOTDIR for an ancestor). */
  function MkdirP(t: Node, p: Path): (r: Result<Node, FsError>)
    ensures r.Err? <==> exists j :: 0 <= j <= |p| && IsFile(t, p[..j])
    ensures r.Ok? ==> IsDir(r.value, p)
    ensures r.Ok? ==> SameOutside(t, r.value, p)
    ensures r.Ok? ==> DirsKept(t, r.value)
    ensures r.Ok? && Wf(t) && ValidPath(p) ==> Wf(r.value)
  {
    if t.File? then
      assert IsFile(t, p[..0]);
      Err(FsError(NotADirectory, []))
    else
      assert !IsFile(t, p[..0]);
      MkdirFrom(t, p, 0)
  }

  /** Creates the directories `p[..k+1]`, ..., `p`, given that `p[..k]` is one. */
  function MkdirFrom(t: Node, p: Path, k: nat): (r: Result<Node, FsError>)
    requires k <= |p|
    requires IsDir(t, p[..k])
    ensures r.Err? <==> exists j :: k < j <= |p| && IsFile(t, p[..j])
    ensures r.Ok? ==> IsDir(r.value, p)
    ensures r.Ok? ==> SameOutside(t, r.value, p)
    ensures r.Ok? ==> DirsKept(t, r.value)
    ensures r.Ok? && Wf(t) && ValidPath(p) ==> Wf(r.value)
    decreases |p| - k
  {
    if k == |p| then
      assert p[..k] == p;
      Ok(t)
    else
      var q := p[..k + 1];
      assert Parent(q) == p[..k];
      match Lookup(t, q)
      case None =>
        var t1 := Put(t, q, Dir([]));
        PutDirFrame(t, q);
        FreshDirBelow(t, p, k);
        MkdirStepWf(t, p, k);
        MkdirFrom(t1, p, k + 1)
      case Some(n) =>
        if n.File? then
          Err(FsError(if k + 1 == |p| then AlreadyExists else NotADirectory, q))
        else
          MkdirFrom(t, p, k + 1)
  }

  lemma MkdirStepWf(t: Node, p: Path, k: nat)
    requires k < |p|
    ensures Wf(t) && ValidPath(p) ==> Wf(Put(t, p[..k + 1], Dir([])))
  {
    if Wf(t) && ValidPath(p) {
      assert forall j :: 0 <= j <= k ==> p[..k + 1][j] == p[j];
      PutWf(t, p[..k + 1], Dir([]));
    }
  }

  /** Below a freshly created directory `p[..k+1]` there is nothing, before
      or after; hence no file in the way, and the frame composes. */
  lemma FreshDirBelow(t: Node, p: Path, k: nat)
    requires k < |p|
    requires IsDir(t, p[..k])
    requires Lookup(t, p[..k + 1]) == None
    ensures forall j :: k < j <= |p| ==> !IsFile(t, p[..j])
    ensures forall j :: k + 1 < j <= |p| ==> !IsFile(Put(t, p[..k + 1], Dir([])), p[..j])
    ensures forall t2: Node :: SameOutside(Put(t, p[..k + 1], Dir([])), t2, p) ==> SameOutside(t, t2, p)
  {
    var q := p[..k + 1];
    assert Parent(q) == p[..k];
    PutDirFrame(t, q);
    forall j | k < j <= |p|
      ensures !IsFile(t, p[..j])
    {
      if j > k + 1 {
        LookupBelowNonDir(t, q, p[..j]);
      }
    }
  }

  /** Writes `c` as a file at `p`: the destination side of
      `fs.copyFileSync` and of the codec's output write. The parent must be
      a directory and `p` must not be one. */
  function WriteFile(t: Node, p: Path, c: Content): (r: Result<Node, FsError>)
    requires p != []
    ensures r.Ok? <==> IsDir(t, Parent(p)) && !IsDir(t, p)
    ensures r.Ok? ==> Lookup(r.value, p) == Some(File(c))
    ensures r.Ok? ==> SameOutside(t, r.value, p)
    ensures r.Ok? ==> DirsKept(t, r.value)
  {
    match Lookup(t, Parent(p))
    case None => Err(FsError(Missing, p))
    case Some(n) =>
      if n.File? then Err(FsError(NotADirectory, p))
      else if IsDir(t, p) then Err(FsError(IsADirectory, p))
      else
        PutFileFrame(t, p, c);
        Ok(Put(t, p, File(c)))
  }

  /** `fs.copyFileSync(src, dst)`. */
  function CopyFile(t: Node, src: Path, dst: Path): (r: Result<Node, FsError>)
    requires dst != []
    ensures r.Ok? <==> IsFile(t, src) && IsDir(t, Parent(dst)) && !IsDir(t, dst)
    ensures r.Ok? ==> Lookup(r.value, dst) == Lookup(t, src)
    ensures r.Ok? ==> SameOutside(t, r.value, dst)
    ensures r.Ok? ==> DirsKept(t, r.value)
  {
    match Lookup(t, src)
    case None => Err(FsError(Missing, src))
    case Some(n) =>
      if n.Dir? then Err(FsError(IsADirectory, src))
      else WriteFile(t, dst, n.data)
  }

  /** `fs.unlinkSync(p)`: removes a file; a directory or nothing there throws. */
  function Unlink(t: Node, p: Path): (r: Result<Node, FsError>)
    requires p != []
    ensures r.Ok? <==> IsFile(t, p)
    ensures r.Ok? ==> Lookup(r.value, p) == None
    ensures r.Ok? ==> SameOutside(t, r.value, p)
    ensures r.Ok? ==> DirsKept(t, r.value)
  {
    match Lookup(t, p)
    case None => Err(FsError(Missing, p))
    case Some(n) =>
      if n.Dir? then Err(FsError(IsADirectory, p))
      else
        DeleteFileFrame(t, p);
        Ok(Delete(t, p))
  }

  /** `fs.renameSync(src, dst)` for a file `src`: the file moves to `dst`,
      replacing a file already there. The model moves files only; the one
      call in index.js renames the codec's output file. */
  function Rename(t: Node, src: Path, dst: Path): (r: Result<Node, FsError>)
    requires src != [] && dst != []
    ensures r.Ok? <==> IsFile(t, src) && (src == dst || (IsDir(t, Parent(dst)) && !IsDir(t, dst)))
    ensures r.Ok? && src != dst ==> Lookup(r.value, dst) == Lookup(t, src)
    ensures r.Ok? && src != dst ==> Lookup(r.value, src) == None
    ensures r.Ok? ==> forall q :: !(q <= src) && !(q <= dst) ==> Lookup(r.value, q) == Lookup(t, q)
    ensures r.Ok? ==> DirsKept(t, r.value)
  {
    match Lookup(t, src)
    case None => Err(FsError(Missing, src))
    case Some(n) =>
      if n.Dir? then Err(FsError(IsADirectory, src))
      else if src == dst then Ok(t)
      else
        var t1 := Delete(t, src);
        DeleteFileFrame(t, src);
        assert src < dst ==> !IsDir(t1, Parent(dst)) by {
          if src < dst && src != Parent(dst) {
            assert src < Parent(dst);
            LookupBelowNonDir(t1, src, Parent(dst));
          }
        }
        WriteFile(t1, dst, n.data)
  }

  /** `fs.rmSync(p, {recursive: true})`: removes `p` and everything below it. */
  function RemoveTree(t: Node, p: Path): (r: Result<Node, FsError>)
    requires p != []
    ensures r.Ok? <==> Exists(t, p)
    ensures r.Ok? ==> forall q :: p <= q ==> Lookup(r.value, q) == None
    ensures r.Ok? ==> forall q :: !(q <= p) && !(p <= q) ==> Lookup(r.value, q) == Lookup(t, q)
  {
    if Exists(t, p) then
      DeleteTreeFrame(t, p);
      Ok(Delete(t, p))
    else Err(FsError(Missing, p))
  }

  lemma DeleteTreeFrame(t: Node, p: Path)
    requires p != []
    ensures forall q :: p <= q ==> Lookup(Delete(t, p), q) == None
    ensures forall q :: !(q <= p) && !(p <= q) ==> Lookup(Delete(t, p), q) == Lookup(t, q)
  {
    forall q | p <= q
      ensures Lookup(Delete(t, p), q) == None
    {
      LookupDeleteBelow(t, p, q);
    }
    forall q | !(q <= p) && !(p <= q)
      ensures Lookup(Delete(t, p), q) == Lookup(t, q)
    {
      LookupDeleteUnrelated(t, p, q);
    }
  }

  /** Creating the parent of `x` succeeds exactly when no file lies on the
      way to `x`, and it neither creates nor removes a directory at `x`. */
  lemma MkdirParent(t: Node, x: Path)
    requires x != []
    ensures MkdirP(t, Parent(x)).Ok? <==> forall j :: 0 <= j < |x| ==> !IsFile(t, x[..j])
    ensures MkdirP(t, Parent(x)).Ok? ==> Lookup(MkdirP(t, Parent(x)).value, x) == Lookup(t, x)
  {
    var d := Parent(x);
    assert forall j :: 0 <= j <= |d| ==> d[..j] == x[..j];
    if MkdirP(t, d).Err? {
      var j :| 0 <= j <= |d| && IsFile(t, d[..j]);
      assert IsFile(t, x[..j]);
    }
  }
}

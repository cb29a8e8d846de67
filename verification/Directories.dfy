/** Making directories and opening files as the system does it, in a file system with symbolic links:
    os.MkdirAll, and os.OpenFile with O_CREATE and O_TRUNC. */
module Directories {
  import opened Text
  import opened SafePath

  /** How many links the kernel follows in one system call. */
  const KERNEL_LINKS: nat := 40

  /** Where a system call arrives that follows every link. */
  function Stat(fs: FileSystem, p: Path): Walked
    requires ValidFileSystem(fs)
  {
    Walk(fs, [], p, KERNEL_LINKS)
  }

  ghost predicate Extends(fs: FileSystem, more: FileSystem) {
    forall q :: q in fs ==> q in more && more[q] == fs[q]
  }

  lemma AddEntry(fs: FileSystem, p: Path, node: Node)
    requires ValidFileSystem(fs) && p != [] && IsName(p[|p| - 1]) && Parent(p) in fs && fs[Parent(p)] == Dir
    requires p in fs ==> fs[p] == node
    ensures ValidFileSystem(fs[p := node]) && Extends(fs, fs[p := node])
  {
    var more := fs[p := node];
    forall q {:trigger InDirectory(more, q)} | q in more
      ensures InDirectory(more, q)
    {
      assert q in fs ==> InDirectory(fs, q);
    }
  }

  // ---------- os.MkdirAll ----------

  datatype Made = Made(fs: FileSystem, ok: bool)

  /** mkdir for the last component of p, and Lstat where the name is taken. */
  function Mkdir(fs: FileSystem, p: Path): (r: Made)
    requires ValidFileSystem(fs) && IsPath(p) && p != []
    ensures ValidFileSystem(r.fs) && Extends(fs, r.fs) && forall q :: q in r.fs && q !in fs ==> r.fs[q] == Dir
  {
    match Entry(fs, KERNEL_LINKS, p)
    case None => Made(fs, false)
    case Some(e) =>
      if e in fs then Made(fs, fs[e] == Dir)
      else
        assert Parent(e) == e[..|e| - 1];
        AddEntry(fs, e, Dir);
        Made(fs[e := Dir], true)
  }

  function MkdirAll(fs: FileSystem, p: Path): (r: Made)
    requires ValidFileSystem(fs) && IsPath(p)
    ensures ValidFileSystem(r.fs) && Extends(fs, r.fs) && forall q :: q in r.fs && q !in fs ==> r.fs[q] == Dir
    decreases |p|
  {
    match Stat(fs, p)
    case At(q, _) => Made(fs, fs[q] == Dir)
    case _ =>
      if p == [] then Made(fs, false)
      else
        var above := MkdirAll(fs, Parent(p));
        if !above.ok then above else Mkdir(above.fs, p)
  }

  /** A walk that arrives arrives in a larger file system too, at the same place. */
  lemma {:induction false} WalkInLarger(fs: FileSystem, more: FileSystem, cur: Path, todo: seq<string>, links: nat)
    requires ValidFileSystem(fs) && ValidFileSystem(more) && Extends(fs, more)
    requires cur in fs && !fs[cur].Link? && Walk(fs, cur, todo, links).At?
    ensures Walk(more, cur, todo, links) == Walk(fs, cur, todo, links)
    decreases links, |todo|
  {
    if todo != [] {
      if CanStep(fs, cur, todo, links) {
        var (c, t, l) := StepTo(fs, cur, todo, links);
        WalkStep(fs, cur, todo, links);
        WalkStep(more, cur, todo, links);
        WalkInLarger(fs, more, c, t, l);
      } else {
        WalkStops(fs, cur, todo, links);
      }
    }
  }

  /** The directories d/names[0], d/names[0]/names[1] and so on. */
  function AddDirs(fs: FileSystem, d: Path, names: Path): FileSystem {
    if names == [] then fs else AddDirs(fs, d, names[..|names| - 1])[d + names := Dir]
  }

  lemma {:induction false} AddDirsIs(fs: FileSystem, d: Path, names: Path, q: Path)
    ensures q in AddDirs(fs, d, names) <==> q in fs || (d < q && q <= d + names)
    ensures q in fs && !(d < q && q <= d + names) ==> AddDirs(fs, d, names)[q] == fs[q]
    ensures d < q && q <= d + names ==> AddDirs(fs, d, names)[q] == Dir
  {
    if names != [] {
      var front := names[..|names| - 1];
      AddDirsIs(fs, d, front, q);
      assert d + names == (d + front) + [names[|names| - 1]];
      if d < q && q <= d + names && q != d + names {
        assert q == (d + names)[..|q|] == (d + front)[..|q|];
      }
    }
  }

  /** Where the directories to be made begin: nothing is there yet. */
  ghost predicate IsGap(fs: FileSystem, d: Path, names: Path) {
    names != [] && d in fs && fs[d] == Dir && d + [names[0]] !in fs
  }

  /** Nothing exists below a name that does not. */
  lemma BelowGap(fs: FileSystem, d: Path, names: Path, q: Path)
    requires ValidFileSystem(fs) && IsGap(fs, d, names) && d < q && q <= d + names
    ensures q !in fs
  {
    assert q[..|d| + 1] == (d + names)[..|d| + 1] == d + [names[0]];
    assert |q| == |d| + 1 ==> q == d + [names[0]];
    if q in fs && |q| > |d| + 1 {
      PrefixesAreDirs(fs, q, |d| + 1);
    }
  }

  lemma LastOf(p: Path)
    requires p != []
    ensures p == Parent(p) + [p[|p| - 1]]
  {
  }

  /** The last component of a path whose parent is reached. */
  lemma StatLast(fs: FileSystem, p: Path, d: Path, left: nat)
    requires ValidFileSystem(fs) && IsPath(p) && p != [] && Stat(fs, Parent(p)) == At(d, left) && fs[d] == Dir
    ensures Entry(fs, KERNEL_LINKS, p) == Some(d + [p[|p| - 1]])
    ensures Stat(fs, p) == Walk(fs, d, [p[|p| - 1]], left)
  {
    LastOf(p);
    WalkConcat(fs, [], Parent(p), [p[|p| - 1]], KERNEL_LINKS);
  }

  /** What MkdirAll comes to. */
  ghost predicate Outcome(fs: FileSystem, p: Path, made: Made, d: Path, names: Path) {
    |names| <= |p| && names == p[|p| - |names|..] &&
    (names == [] ==> made.fs == fs) &&
    (names != [] ==> made.ok && IsGap(fs, d, names) && made.fs == AddDirs(fs, d, names) &&
                     ValidFileSystem(fs) && Stat(fs, p[..|p| - |names|]).At? && Stat(fs, p[..|p| - |names|]).path == d) &&
    (made.ok ==> ValidFileSystem(made.fs) && Stat(made.fs, p).At? && Stat(made.fs, p).path == d + names &&
                 made.fs[d + names] == Dir)
  }

  lemma MkdirStep(fs: FileSystem, p: Path, above: Made, d: Path, names: Path) returns (d': Path, names': Path)
    requires ValidFileSystem(fs) && IsPath(p) && p != [] && !Stat(fs, p).At? && above.ok
    requires ValidFileSystem(above.fs) && Outcome(fs, Parent(p), above, d, names)
    ensures Outcome(fs, p, Mkdir(above.fs, p), d', names')
  {
    var name := p[|p| - 1];
    var place := d + names;
    StatLast(above.fs, p, place, Stat(above.fs, Parent(p)).links);
    WalkOne(above.fs, place, name, Stat(above.fs, Parent(p)).links);
    var e := place + [name];
    d', names' := d, if names == [] then [] else names + [name];
    if names == [] {
      assert place == d;
      if e !in fs {
        names' := [name];
        assert AddDirs(fs, d, names') == fs[e := Dir] by {
          assert names'[..0] == [];
        }
        MadeOne(fs, p, d);
      }
    } else {
      assert e == d + (names + [name]);
      assert (names + [name])[..|names|] == names;
      assert IsGap(fs, d, names + [name]);
      BelowGap(fs, d, names + [name], e);
      AddDirsIs(fs, d, names, e);
      MadeOne(above.fs, p, place);
      LastOf(p);
      assert p[|p| - |names'|..] == names';
      assert p[..|p| - |names'|] == Parent(p)[..|Parent(p)| - |names|];
    }
  }

  lemma MadeOne(fs: FileSystem, p: Path, d: Path)
    requires ValidFileSystem(fs) && IsPath(p) && p != [] && Stat(fs, Parent(p)).At? && Stat(fs, Parent(p)).path == d
    requires fs[d] == Dir && d + [p[|p| - 1]] !in fs
    ensures var e := d + [p[|p| - 1]];
            Mkdir(fs, p) == Made(fs[e := Dir], true) && ValidFileSystem(fs[e := Dir]) &&
            Stat(fs[e := Dir], p).At? && Stat(fs[e := Dir], p).path == e
  {
    var e := d + [p[|p| - 1]];
    var left := Stat(fs, Parent(p)).links;
    StatLast(fs, p, d, left);
    var more := Mkdir(fs, p).fs;
    WalkInLarger(fs, more, [], Parent(p), KERNEL_LINKS);
    StatLast(more, p, d, left);
    WalkOne(more, d, p[|p| - 1], left);
  }

  /** MkdirAll either makes nothing, or succeeds and makes exactly the missing directories below the deepest
      part of the path that is there, wherever links have led to. */
  lemma {:induction false} MkdirAllOutcome(fs: FileSystem, p: Path) returns (d: Path, names: Path)
    requires ValidFileSystem(fs) && IsPath(p)
    ensures Outcome(fs, p, MkdirAll(fs, p), d, names)
    decreases |p|
  {
    if Stat(fs, p).At? {
      d, names := Stat(fs, p).path, [];
      assert p[|p|..] == [] && d + [] == d;
    } else {
      d, names := MkdirAllOutcome(fs, Parent(p));
      var above := MkdirAll(fs, Parent(p));
      if above.ok {
        d, names := MkdirStep(fs, p, above, d, names);
      } else {
        names := [];
        assert p[|p|..] == [];
      }
    }
  }

  // ---------- Opening a file for writing ----------

  predicate Plain(todo: seq<string>) {
    forall s :: s in todo ==> '/' !in s
  }

  lemma StepPlain(fs: FileSystem, cur: Path, todo: seq<string>, links: nat)
    requires CanStep(fs, cur, todo, links) && Plain(todo)
    ensures Plain(StepTo(fs, cur, todo, links).1)
  {
    var next := cur + [todo[0]];
    if next in fs && fs[next].Link? {
      SplitPartsPlain(fs[next].target, '/');
    }
  }

  /** The place where a file is opened or created from the directory `cur`: a walk that follows a final link too,
      and may end at a name that is not there. None: the call fails. */
  function OpenFrom(fs: FileSystem, cur: Path, todo: seq<string>, links: nat): (r: Option<Path>)
    requires ValidFileSystem(fs) && cur in fs && !fs[cur].Link? && Plain(todo)
    ensures r.Some? && r.value in fs ==> !fs[r.value].Link?
    ensures r.Some? && r.value !in fs ==>
              r.value != [] && IsName(r.value[|r.value| - 1]) && Parent(r.value) in fs && fs[Parent(r.value)] == Dir
    decreases links, |todo|
  {
    if todo == [] then Some(cur)
    else if CanStep(fs, cur, todo, links) then
      var (c, t, l) := StepTo(fs, cur, todo, links);
      WalkStep(fs, cur, todo, links);
      StepPlain(fs, cur, todo, links);
      OpenFrom(fs, c, t, l)
    else if fs[cur] == Dir && cur + [todo[0]] !in fs && |todo| == 1 then
      assert todo[0] in todo && Parent(cur + [todo[0]]) == cur;
      Some(cur + [todo[0]])
    else None
  }

  function Open(fs: FileSystem, p: Path): Option<Path>
    requires ValidFileSystem(fs) && IsPath(p)
  {
    OpenFrom(fs, [], p, KERNEL_LINKS)
  }

  lemma {:induction false} StepConcat(fs: FileSystem, cur: Path, a: seq<string>, b: seq<string>, links: nat)
    requires CanStep(fs, cur, a, links)
    ensures CanStep(fs, cur, a + b, links)
    ensures var (c, t, l) := StepTo(fs, cur, a, links); StepTo(fs, cur, a + b, links) == (c, t + b, l)
  {
    assert (a + b)[1..] == a[1..] + b;
    var next := cur + [a[0]];
    if next in fs && fs[next].Link? {
      ConcatAssoc(Split(fs[next].target, '/'), a[1..], b);
    }
  }

  /** Opening goes where walking goes. */
  lemma {:induction false} OpenConcat(fs: FileSystem, cur: Path, a: seq<string>, b: seq<string>, links: nat)
    requires ValidFileSystem(fs) && cur in fs && !fs[cur].Link? && Plain(a + b)
    requires Walk(fs, cur, a, links).At?
    ensures var w := Walk(fs, cur, a, links);
            Plain(b) && OpenFrom(fs, cur, a + b, links) == OpenFrom(fs, w.path, b, w.links)
    decreases links, |a|
  {
    assert forall s :: s in b ==> s in a + b;
    if a == [] {
      assert a + b == b;
    } else if CanStep(fs, cur, a, links) {
      var (c, t, l) := StepTo(fs, cur, a, links);
      StepConcat(fs, cur, a, b, links);
      WalkStep(fs, cur, a, links);
      StepPlain(fs, cur, a + b, links);
      OpenConcat(fs, c, t, b, l);
    } else {
      WalkStops(fs, cur, a, links);
    }
  }

  /** A file is opened at the entry itself, unless that is a link. */
  lemma OpenAtEntry(fs: FileSystem, p: Path, e: Path)
    requires ValidFileSystem(fs) && IsPath(p) && p != [] && Entry(fs, KERNEL_LINKS, p) == Some(e)
    requires e in fs ==> !fs[e].Link?
    ensures Open(fs, p) == Some(e)
  {
    var name := p[|p| - 1];
    LastOf(p);
    assert Plain(p);
    var w := Walk(fs, [], Parent(p), KERNEL_LINKS);
    OpenConcat(fs, [], Parent(p), [name], KERNEL_LINKS);
    assert [name][1..] == [];
    assert IsName(name);
  }

  // ---------- Paths without links on the way ----------

  /** No link and no file comes before the end of p. */
  ghost predicate Unlinked(fs: FileSystem, p: Path) {
    forall n :: 0 <= n <= |p| && p[..n] in fs ==> fs[p[..n]] == Dir
  }

  lemma StatReal(fs: FileSystem, p: Path)
    requires ValidFileSystem(fs) && p in fs && !fs[p].Link?
    ensures Stat(fs, p) == At(p, KERNEL_LINKS) && EvalSymlinks(fs, p) == At(p, MAX_LINKS)
  {
    WalkReal(fs, p, 0, KERNEL_LINKS);
    WalkReal(fs, p, 0, MAX_LINKS);
    assert p[..0] == [] && p[0..] == p;
  }

  lemma UnlinkedParent(fs: FileSystem, p: Path)
    requires Unlinked(fs, p) && p != []
    ensures Unlinked(fs, Parent(p))
  {
    forall n | 0 <= n <= |p| - 1 && Parent(p)[..n] in fs
      ensures fs[Parent(p)[..n]] == Dir
    {
      assert Parent(p)[..n] == p[..n];
    }
  }

  lemma {:induction false} UnlinkedMissing(fs: FileSystem, p: Path)
    requires ValidFileSystem(fs) && IsPath(p) && Unlinked(fs, p) && p !in fs
    ensures Stat(fs, p) == NotExist
    decreases |p|
  {
    var name := p[|p| - 1];
    LastOf(p);
    UnlinkedParent(fs, p);
    WalkConcat(fs, [], Parent(p), [name], KERNEL_LINKS);
    if Parent(p) in fs {
      assert p[..|p| - 1] == Parent(p);
      StatReal(fs, Parent(p));
      WalkOne(fs, Parent(p), name, KERNEL_LINKS);
    } else {
      UnlinkedMissing(fs, Parent(p));
    }
  }

  /** Where there is no link on the way, MkdirAll makes the path itself and what is missing above it. */
  lemma {:induction false} MkdirAllReal(fs: FileSystem, p: Path)
    requires ValidFileSystem(fs) && IsPath(p) && Unlinked(fs, p)
    ensures var made := MkdirAll(fs, p);
            made.ok && p in made.fs && made.fs[p] == Dir &&
            forall q :: q in made.fs && q !in fs ==> q <= p
    decreases |p|
  {
    assert p[..|p|] == p;
    if p in fs {
      StatReal(fs, p);
    } else {
      UnlinkedMissing(fs, p);
      UnlinkedParent(fs, p);
      MkdirAllReal(fs, Parent(p));
      var above := MkdirAll(fs, Parent(p)).fs;
      LastOf(p);
      StatReal(above, Parent(p));
      StatLast(above, p, Parent(p), KERNEL_LINKS);
      assert !(p <= Parent(p));
    }
  }

  /** The system calls on a path whose parent is a directory free of links, and that is no link itself. */
  lemma RealPlace(fs: FileSystem, p: Path)
    requires ValidFileSystem(fs) && IsPath(p) && p != [] && Parent(p) in fs && fs[Parent(p)] == Dir
    requires p in fs ==> !fs[p].Link?
    ensures MkdirAll(fs, Parent(p)) == Made(fs, true) && Open(fs, p) == Some(p)
    ensures MkdirAll(fs, p) == if p in fs then Made(fs, fs[p] == Dir) else Made(fs[p := Dir], true)
    ensures Entry(fs, KERNEL_LINKS, p) == Some(p) && ResolveExisting(fs, p) == Ok(p)
  {
    LastOf(p);
    var name := p[|p| - 1];
    StatReal(fs, Parent(p));
    StatLast(fs, p, Parent(p), KERNEL_LINKS);
    OpenAtEntry(fs, p, p);
    WalkOne(fs, Parent(p), name, KERNEL_LINKS);
    WalkOne(fs, Parent(p), name, MAX_LINKS);
    WalkConcat(fs, [], Parent(p), [name], MAX_LINKS);
    ResolveStep(fs, p, [], EvalSymlinks(fs, p));
    ResolveStep(fs, Parent(p), [name], EvalSymlinks(fs, Parent(p)));
    assert p + [] == p && [name] + [] == [name];
  }

  /** SafeJoin lets pass the root itself, and what is or could be in a directory free of links. */
  lemma SafeJoinAccepts(fs: FileSystem, root: Path, rel: string)
    requires ValidFileSystem(fs) && IsPath(root) && root in fs && fs[root] == Dir
    requires var p := Candidate(root, rel);
             p != root ==> Parent(p) in fs && fs[Parent(p)] == Dir && (p in fs ==> !fs[p].Link?)
    ensures SafeJoin(fs, KERNEL_LINKS, root, rel) == Ok(Candidate(root, rel))
  {
    var p := Candidate(root, rel);
    CandidateIsPath(root, rel);
    DotDotStaysBelow(root, rel);
    if p == root {
      StatReal(fs, root);
      SafeJoinIs(fs, KERNEL_LINKS, root, rel);
    } else {
      RealPlace(fs, p);
      SafeJoinAtEntryIff(fs, KERNEL_LINKS, root, rel, p);
    }
  }

  // ---------- Staying below a root ----------

  lemma StatEvaluates(fs: FileSystem, p: Path)
    requires ValidFileSystem(fs) && Stat(fs, p).At?
    ensures EvalSymlinks(fs, p).At? && EvalSymlinks(fs, p).path == Stat(fs, p).path
  {
    WalkMoreLinks(fs, [], p, KERNEL_LINKS, MAX_LINKS - KERNEL_LINKS);
  }

  lemma MissingBelow(fs: FileSystem, p: Path, k: nat, n: nat, d: Path)
    requires ValidFileSystem(fs) && IsPath(p) && k < n <= |p| && Stat(fs, p[..k]).At? && Stat(fs, p[..k]).path == d
    requires fs[d] == Dir && d + [p[k]] !in fs
    ensures EvalSymlinks(fs, p[..n]) == NotExist
  {
    StatEvaluates(fs, p[..k]);
    assert p[..n] == p[..k] + p[k..n] && p[k..n] == [p[k]] + p[k + 1..n];
    WalkConcat(fs, [], p[..k], p[k..n], MAX_LINKS);
    var left := EvalSymlinks(fs, p[..k]).links;
    WalkConcat(fs, d, [p[k]], p[k + 1..n], left);
    WalkOne(fs, d, p[k], left);
  }

  /** resolveExisting ends where MkdirAll begins. */
  lemma {:induction false} ResolveGap(fs: FileSystem, p: Path, k: nat, n: nat, d: Path, missing: Path)
    requires ValidFileSystem(fs) && IsPath(p) && k <= n <= |p| && k < |p|
    requires Stat(fs, p[..k]).At? && Stat(fs, p[..k]).path == d && fs[d] == Dir && d + [p[k]] !in fs
    ensures ResolveFrom(fs, p[..n], missing) == Ok(d + p[k..n] + missing)
    decreases n
  {
    if n == k {
      StatEvaluates(fs, p[..k]);
      assert d + p[k..n] == d;
    } else {
      MissingBelow(fs, p, k, n, d);
      var rest := [p[n - 1]] + missing;
      assert Parent(p[..n]) == p[..n - 1] && p[..n][n - 1] == p[n - 1];
      ResolveStep(fs, p[..n], missing, NotExist);
      ResolveGap(fs, p, k, n - 1, d, rest);
      assert p[k..n] == p[k..n - 1] + [p[n - 1]];
      ConcatAssoc(d, p[k..n - 1], [p[n - 1]]);
      ConcatAssoc(d + p[k..n - 1], [p[n - 1]], missing);
    }
  }

  lemma RootAboveGap(fs: FileSystem, root: Path, d: Path, names: Path)
    requires ValidFileSystem(fs) && root in fs && IsGap(fs, d, names) && root <= d + names
    ensures root <= d
  {
    if |root| > |d| {
      assert d < root;
      BelowGap(fs, d, names, root);
    } else {
      assert root == (d + names)[..|root|] == d[..|root|];
    }
  }

  /** resolveExisting has found the path to be below root. */
  ghost predicate Resolved(fs: FileSystem, root: Path, p: Path)
    requires ValidFileSystem(fs)
  {
    root in fs && fs[root] == Dir && IsPath(p) && ResolveExisting(fs, p).Ok? && root <= ResolveExisting(fs, p).value
  }

  lemma GapInside(fs: FileSystem, root: Path, p: Path, d: Path, names: Path)
    requires ValidFileSystem(fs) && Resolved(fs, root, p) && |names| <= |p| && names == p[|p| - |names|..]
    requires IsGap(fs, d, names) && Stat(fs, p[..|p| - |names|]).At? && Stat(fs, p[..|p| - |names|]).path == d
    ensures root <= d
  {
    ResolveGap(fs, p, |p| - |names|, |p|, d, []);
    assert p[..|p|] == p && d + names + [] == d + names;
    RootAboveGap(fs, root, d, names);
  }

  /** Whatever `more` has beyond `fs` are directories below root. */
  ghost predicate AddsInside(fs: FileSystem, more: FileSystem, root: Path) {
    forall q :: q in more && q !in fs ==> root <= q && more[q] == Dir
  }

  lemma AddDirsInside(fs: FileSystem, root: Path, d: Path, names: Path)
    requires root <= d
    ensures AddsInside(fs, AddDirs(fs, d, names), root)
  {
    forall q | q in AddDirs(fs, d, names) && q !in fs
      ensures root <= q && AddDirs(fs, d, names)[q] == Dir
    {
      AddDirsIs(fs, d, names, q);
    }
  }

  /** A directory that is resolved below root is made below root, with all that is missing above it. */
  lemma MkdirAllInside(fs: FileSystem, root: Path, p: Path)
    requires ValidFileSystem(fs) && Resolved(fs, root, p)
    ensures AddsInside(fs, MkdirAll(fs, p).fs, root)
  {
    var d, names := MkdirAllOutcome(fs, p);
    if names != [] {
      GapInside(fs, root, p, d, names);
      AddDirsInside(fs, root, d, names);
    }
  }

  lemma ParentOutcome(fs: FileSystem, root: Path, p: Path, d: Path, names: Path)
    requires ValidFileSystem(fs) && Resolved(fs, root, p) && p != [] && names != []
    requires Outcome(fs, Parent(p), MkdirAll(fs, Parent(p)), d, names)
    ensures root <= d && IsGap(fs, d, names + [p[|p| - 1]])
  {
    var all := names + [p[|p| - 1]];
    LastOf(p);
    assert p[|p| - |all|..] == all;
    assert p[..|p| - |all|] == Parent(p)[..|Parent(p)| - |names|];
    assert all[0] == names[0];
    GapInside(fs, root, p, d, all);
  }

  /** So are the directories above a file, and the file is then opened below root, at an entry that is no link. */
  lemma FileInside(fs: FileSystem, root: Path, p: Path)
    requires ValidFileSystem(fs) && Resolved(fs, root, p) && p != []
    requires forall e: Path :: Entry(fs, KERNEL_LINKS, p) == Some(e) ==> root <= e && (e in fs ==> !fs[e].Link?)
    ensures var made := MkdirAll(fs, Parent(p));
            AddsInside(fs, made.fs, root) &&
            (made.ok ==> var at := Open(made.fs, p); at.Some? && root <= at.value)
  {
    var d, names := MkdirAllOutcome(fs, Parent(p));
    var made := MkdirAll(fs, Parent(p));
    var name := p[|p| - 1];
    if names != [] {
      ParentOutcome(fs, root, p, d, names);
      AddDirsInside(fs, root, d, names);
    }
    if made.ok {
      var place := d + names;
      StatLast(made.fs, p, place, Stat(made.fs, Parent(p)).links);
      if names != [] {
        assert place + [name] == d + (names + [name]);
        BelowGap(fs, d, names + [name], place + [name]);
        AddDirsIs(fs, d, names, place + [name]);
      }
      OpenAtEntry(made.fs, p, place + [name]);
    }
  }

  // ---------- A root that is not what its name says ----------

  /** A name that leads on from a real directory is not missing there, however few links are left. */
  lemma NotMissing(fs: FileSystem, root: Path, d: Path, left: nat)
    requires ValidFileSystem(fs) && d in fs && !fs[d].Link? && d < root && EvalSymlinks(fs, root).At? && left <= MAX_LINKS
    ensures Walk(fs, d, [root[|d|]], left) != NotExist
  {
    var name := root[|d|];
    StatReal(fs, d);
    assert root == d + root[|d|..] && root[|d|..] == [name] + root[|d| + 1..];
    WalkConcat(fs, [], d, root[|d|..], MAX_LINKS);
    WalkConcat(fs, d, [name], root[|d| + 1..], MAX_LINKS);
    if Walk(fs, d, [name], left) == NotExist {
      WalkMoreLinks(fs, d, [name], left, MAX_LINKS - left);
    }
  }

  lemma PrefixIsReal(fs: FileSystem, root: Path, d: Path)
    requires ValidFileSystem(fs) && d in fs && !fs[d].Link? && root <= d
    ensures root in fs && !fs[root].Link?
  {
    if |root| < |d| {
      PrefixesAreDirs(fs, d, |root|);
      assert d[..|root|] == root;
    } else {
      assert root == d;
    }
  }

  lemma OffRoot(fs: FileSystem, root: Path, p: Path)
    requires ValidFileSystem(fs) && root <= p && EvalSymlinks(fs, root).At? && !(root in fs && !fs[root].Link?)
    requires ResolveExisting(fs, p).Ok?
    ensures !(root <= ResolveExisting(fs, p).value)
  {
    assert p[..|p|] == p;
    ResolveStep(fs, p, [], EvalSymlinks(fs, p));
    var k, d := Deepest(fs, p, |p|);
    ResolveDeepest(fs, p, k, d, |p|);
    assert p[|p|..] == [];
    var left := EvalSymlinks(fs, p[..k]).links;
    var found := ResolveExisting(fs, p).value;
    assert found == d + p[k..];
    if root <= found {
      if |root| <= |d| {
        assert root == found[..|root|] == d[..|root|];
        PrefixIsReal(fs, root, d);
      } else {
        assert d == found[..|d|] == root[..|d|];
        assert found[|d|] == p[k] == root[|d|];
        NotMissing(fs, root, d, left);
        assert p[..k + 1] == p[..k] + [p[k]];
        WalkConcat(fs, [], p[..k], [p[k]], MAX_LINKS);
      }
    }
  }

  /** Where the name of the root passes through a link, SafeJoin hands out nothing at all. */
  lemma SafeJoinNeedsRealRoot(fs: FileSystem, root: Path, rel: string)
    requires ValidFileSystem(fs) && IsPath(root) && Stat(fs, root).At?
    requires SafeJoin(fs, KERNEL_LINKS, root, rel).Ok?
    ensures root in fs && !fs[root].Link?
  {
    var p := Candidate(root, rel);
    CandidateIsPath(root, rel);
    StatEvaluates(fs, root);
    ResolvedIsPath(fs, p, []);
    WithinRootIsPrefix(root, ResolveExisting(fs, p).value);
    if !(root in fs && !fs[root].Link?) {
      OffRoot(fs, root, p);
    }
  }

  lemma SafeJoinResolves(fs: FileSystem, root: Path, rel: string)
    requires ValidFileSystem(fs) && root in fs && fs[root] == Dir && SafeJoin(fs, KERNEL_LINKS, root, rel).Ok?
    ensures var p := Candidate(root, rel);
            SafeJoin(fs, KERNEL_LINKS, root, rel).value == p && Resolved(fs, root, p) &&
            forall e: Path :: Entry(fs, KERNEL_LINKS, p) == Some(e) ==> root <= e && (e in fs ==> !fs[e].Link?)
  {
    EntriesArePaths(fs, root);
    CandidateIsPath(root, rel);
    ResolvedIsPath(fs, Candidate(root, rel), []);
    WithinRootIsPrefix(root, ResolveExisting(fs, Candidate(root, rel)).value);
    SafeJoinStaysInside(fs, KERNEL_LINKS, root, rel);
  }
}

/** internal/system/safepath.go: joining an untrusted relative path to a root directory, against a
    file system with symbolic links that nobody changes meanwhile. */
module SafePath {
  import opened Text

  // ---------- Paths ----------

  /** An absolute clean path, by its components; the root is []. */
  type Path = seq<string>

  predicate IsName(s: string) {
    s != "" && s != "." && s != ".." && '/' !in s
  }

  predicate IsPath(p: Path) {
    forall i :: 0 <= i < |p| ==> IsName(p[i])
  }

  function Render(p: Path): string {
    "/" + Join(p, '/')
  }

  function Parent(p: Path): Path {
    if p == [] then [] else p[..|p| - 1]
  }

  /** filepath.Clean on the pieces of a rooted path: "." and empty pieces vanish, ".." drops a component
      and stays at the top. */
  function CleanFrom(base: Path, pieces: seq<string>): Path
    decreases |pieces|
  {
    if pieces == [] then base
    else if pieces[0] == "" || pieces[0] == "." then CleanFrom(base, pieces[1..])
    else if pieces[0] == ".." then CleanFrom(Parent(base), pieces[1..])
    else CleanFrom(base + [pieces[0]], pieces[1..])
  }

  /** filepath.Clean of a string that starts with '/'. */
  function Clean(s: string): Path {
    CleanFrom([], Split(s, '/'))
  }

  lemma {:induction false} CleanIsPath(base: Path, pieces: seq<string>)
    requires IsPath(base) && forall x :: x in pieces ==> '/' !in x
    ensures IsPath(CleanFrom(base, pieces))
    decreases |pieces|
  {
    if pieces != [] {
      assert pieces[0] in pieces;
      if pieces[0] == "" || pieces[0] == "." {
        CleanIsPath(base, pieces[1..]);
      } else if pieces[0] == ".." {
        CleanIsPath(Parent(base), pieces[1..]);
      } else {
        CleanIsPath(base + [pieces[0]], pieces[1..]);
      }
    }
  }

  lemma {:induction false} CleanConcat(base: Path, a: seq<string>, b: seq<string>)
    ensures CleanFrom(base, a + b) == CleanFrom(CleanFrom(base, a), b)
    decreases |a|
  {
    if a == [] {
      assert a + b == b;
    } else {
      assert (a + b)[1..] == a[1..] + b;
      if a[0] == "" || a[0] == "." {
        CleanConcat(base, a[1..], b);
      } else if a[0] == ".." {
        CleanConcat(Parent(base), a[1..], b);
      } else {
        CleanConcat(base + [a[0]], a[1..], b);
      }
    }
  }

  lemma {:induction false} CleanNames(base: Path, names: Path)
    requires IsPath(names)
    ensures CleanFrom(base, names) == base + names
    decreases |names|
  {
    if names != [] {
      CleanNames(base + [names[0]], names[1..]);
      assert base + [names[0]] + names[1..] == base + names;
    }
  }

  lemma SplitRendered(p: Path)
    requires IsPath(p)
    ensures Split(Render(p), '/') == [""] + if p == [] then [""] else p
  {
    SplitConcat("", Join(p, '/'), '/');
    assert "" + ['/'] + Join(p, '/') == Render(p);
    if p != [] {
      SplitJoin(p, '/');
    }
  }

  lemma CleanRendered(p: Path)
    requires IsPath(p)
    ensures Clean(Render(p)) == p
  {
    SplitRendered(p);
    CleanConcat([], [""], if p == [] then [""] else p);
    CleanNames([], p);
  }

  /** filepath.Join(root, clean) for two clean paths is their concatenation. */
  lemma JoinIsConcat(root: Path, clean: Path)
    requires IsPath(root) && IsPath(clean)
    ensures Clean(Render(root) + "/" + Render(clean)) == root + clean
  {
    SplitConcat(Render(root), Render(clean), '/');
    SplitRendered(root);
    SplitRendered(clean);
    var r, c := if root == [] then [""] else root, if clean == [] then [""] else clean;
    assert Split(Render(root) + "/" + Render(clean), '/') == ([""] + r) + ([""] + c);
    CleanConcat([], [""] + r, [""] + c);
    CleanConcat([], [""], r);
    CleanConcat(root, [""], c);
    CleanNames([], root);
    CleanNames(root, clean);
    assert [] + root == root;
  }

  /** withinRoot, on the rendered strings as in the source. */
  predicate WithinRoot(root: string, p: string) {
    p == root || HasPrefix(p, if root != "/" then root + "/" else root)
  }

  lemma CancelHead<T>(x: T, a: seq<T>, b: seq<T>, tail: seq<T>)
    requires [x] + a == ([x] + b) + tail
    ensures a == b + tail
  {
    assert ([x] + a)[1..] == a;
    assert (([x] + b) + tail)[1..] == b + tail;
  }

  lemma PrefixSplits(root: Path, p: Path, rest: string)
    requires IsPath(root) && IsPath(p) && root != []
    requires Render(p) == Render(root) + "/" + rest
    ensures root <= p
  {
    SplitRendered(root);
    SplitRendered(p);
    SplitConcat(Render(root), rest, '/');
    var tail := Split(rest, '/');
    var pieces := if p == [] then [""] else p;
    CancelHead("", pieces, root, tail);
    assert IsName(root[0]) && pieces[0] == root[0];
  }

  lemma RenderInjective(p: Path, q: Path)
    requires IsPath(p) && IsPath(q) && Render(p) == Render(q)
    ensures p == q
  {
    CleanRendered(p);
    CleanRendered(q);
  }

  lemma RenderBelow(root: Path, rest: Path)
    requires root != [] && rest != []
    ensures Render(root + rest) == Render(root) + "/" + Join(rest, '/')
  {
    JoinConcat(root, rest, '/');
  }

  /** The string test decides exactly whether `p` is root or below it, component by component. */
  lemma WithinRootIsPrefix(root: Path, p: Path)
    requires IsPath(root) && IsPath(p)
    ensures WithinRoot(Render(root), Render(p)) <==> root <= p
  {
    if root == [] {
      assert Render(root) == "/" && Render(p)[..1] == "/";
    } else {
      var prefix := Render(root) + "/";
      if Render(root) == "/" {
        RenderInjective(root, []);
      }
      if HasPrefix(Render(p), prefix) {
        assert Render(p) == prefix + Render(p)[|prefix|..];
        PrefixSplits(root, p, Render(p)[|prefix|..]);
      } else if Render(p) == Render(root) {
        RenderInjective(p, root);
      } else if root <= p {
        var rest := p[|root|..];
        assert p == root + rest;
        assert rest == [] ==> p == root;
        RenderBelow(root, rest);
      }
    }
  }

  // ---------- The file system ----------

  datatype Node = Dir | File | Link(target: string)

  /** Every entry by its real path; parents are directories. */
  type FileSystem = map<Path, Node>

  ghost predicate ValidFileSystem(fs: FileSystem) {
    [] in fs && fs[[]] == Dir && forall p {:trigger InDirectory(fs, p)} :: p in fs ==> InDirectory(fs, p)
  }

  predicate InDirectory(fs: FileSystem, p: Path) {
    p != [] ==> IsName(p[|p| - 1]) && Parent(p) in fs && fs[Parent(p)] == Dir
  }

  lemma {:induction false} PrefixesAreDirs(fs: FileSystem, p: Path, n: nat)
    requires ValidFileSystem(fs) && p in fs && n < |p|
    ensures p[..n] in fs && fs[p[..n]] == Dir && IsName(p[n])
    decreases |p| - n
  {
    if n == |p| - 1 {
      assert InDirectory(fs, p);
      assert p[..n] == Parent(p);
    } else {
      PrefixesAreDirs(fs, p, n + 1);
      assert InDirectory(fs, p[..n + 1]);
      assert Parent(p[..n + 1]) == p[..n] && p[..n + 1][n] == p[n];
    }
  }

  lemma PrefixIn(fs: FileSystem, p: Path, n: nat, k: nat)
    requires ValidFileSystem(fs) && n < k <= |p| && p[..k] in fs
    ensures p[..n] in fs && fs[p[..n]] == Dir
  {
    PrefixesAreDirs(fs, p[..k], n);
    assert p[..k][..n] == p[..n];
  }

  lemma EntriesArePaths(fs: FileSystem, p: Path)
    requires ValidFileSystem(fs) && p in fs
    ensures IsPath(p)
  {
    forall i | 0 <= i < |p|
      ensures IsName(p[i])
    {
      PrefixesAreDirs(fs, p, i);
    }
  }

  datatype Walked = At(path: Path, links: nat) | NotExist | NotDir | TooManyLinks

  /** Following a path from the real directory `cur`, resolving every symbolic link on the way, the last
      one too; `links` is how many may still be followed. */
  function Walk(fs: FileSystem, cur: Path, todo: seq<string>, links: nat): (w: Walked)
    requires ValidFileSystem(fs) && cur in fs && !fs[cur].Link?
    ensures w.At? ==> w.path in fs && !fs[w.path].Link? && w.links <= links
    decreases links, |todo|
  {
    if todo == [] then At(cur, links)
    else if fs[cur] != Dir then NotDir
    else if todo[0] == "" || todo[0] == "." then Walk(fs, cur, todo[1..], links)
    else if todo[0] == ".." then
      assert InDirectory(fs, cur);
      Walk(fs, Parent(cur), todo[1..], links)
    else
      var next := cur + [todo[0]];
      if next !in fs then NotExist
      else match fs[next]
        case Link(t) =>
          if links == 0 then TooManyLinks
          else Walk(fs, if HasPrefix(t, "/") then [] else cur, Split(t, '/') + todo[1..], links - 1)
        case _ => Walk(fs, next, todo[1..], links)
  }

  /** filepath.EvalSymlinks gives up after 255 links. */
  const MAX_LINKS: nat := 255

  function EvalSymlinks(fs: FileSystem, p: Path): Walked
    requires ValidFileSystem(fs)
  {
    Walk(fs, [], p, MAX_LINKS)
  }

  /** The directory entry a system call acts on that follows links on the way but not the last one.
      `limit` is the kernel's own bound on links. None: the call fails. */
  function Entry(fs: FileSystem, limit: nat, p: Path): Option<Path>
    requires ValidFileSystem(fs)
  {
    if p == [] then Some([])
    else match Walk(fs, [], Parent(p), limit)
      case At(d, _) => if fs[d] == Dir then Some(d + [p[|p| - 1]]) else None
      case _ => None
  }

  function Lstat(fs: FileSystem, limit: nat, p: Path): Option<Node>
    requires ValidFileSystem(fs)
  {
    match Entry(fs, limit, p)
    case Some(q) => if q in fs then Some(fs[q]) else None
    case None => None
  }

  lemma {:induction false} WalkConcat(fs: FileSystem, cur: Path, a: seq<string>, b: seq<string>, links: nat)
    requires ValidFileSystem(fs) && cur in fs && !fs[cur].Link?
    ensures Walk(fs, cur, a + b, links) ==
            var w := Walk(fs, cur, a, links);
            if w.At? then Walk(fs, w.path, b, w.links) else w
    decreases links, |a|
  {
    if a == [] {
      assert a + b == b;
    } else if fs[cur] == Dir {
      assert (a + b)[0] == a[0] && (a + b)[1..] == a[1..] + b;
      if a[0] == "" || a[0] == "." {
        WalkConcat(fs, cur, a[1..], b, links);
      } else if a[0] == ".." {
        assert InDirectory(fs, cur);
        WalkConcat(fs, Parent(cur), a[1..], b, links);
      } else {
        var next := cur + [a[0]];
        if next in fs {
          if fs[next].Link? {
            if links > 0 {
              var t := fs[next].target;
              ConcatAssoc(Split(t, '/'), a[1..], b);
              WalkConcat(fs, if HasPrefix(t, "/") then [] else cur, Split(t, '/') + a[1..], b, links - 1);
            }
          } else {
            WalkConcat(fs, next, a[1..], b, links);
          }
        }
      }
    }
  }

  /** The walk does not stop at its next piece. */
  predicate CanStep(fs: FileSystem, cur: Path, todo: seq<string>, links: nat) {
    cur in fs && fs[cur] == Dir && todo != [] &&
    (todo[0] == "" || todo[0] == "." || todo[0] == ".." ||
     (cur + [todo[0]] in fs && (fs[cur + [todo[0]]].Link? ==> links > 0)))
  }

  /** Where it then stands, what is left to do, and how many links may still be followed. */
  function StepTo(fs: FileSystem, cur: Path, todo: seq<string>, links: nat): (Path, seq<string>, nat)
    requires CanStep(fs, cur, todo, links)
  {
    if todo[0] == "" || todo[0] == "." then (cur, todo[1..], links)
    else if todo[0] == ".." then (Parent(cur), todo[1..], links)
    else match fs[cur + [todo[0]]]
      case Link(t) => (if HasPrefix(t, "/") then [] else cur, Split(t, '/') + todo[1..], links - 1)
      case _ => (cur + [todo[0]], todo[1..], links)
  }

  lemma WalkStep(fs: FileSystem, cur: Path, todo: seq<string>, links: nat)
    requires ValidFileSystem(fs) && CanStep(fs, cur, todo, links)
    ensures var (c, t, l) := StepTo(fs, cur, todo, links);
            c in fs && !fs[c].Link? && (l < links || (l == links && |t| < |todo|)) &&
            Walk(fs, cur, todo, links) == Walk(fs, c, t, l)
  {
    assert InDirectory(fs, cur);
    var next := cur + [todo[0]];
    if todo[0] != "" && todo[0] != "." && todo[0] != ".." && fs[next].Link? {
      WalkLink(fs, cur, todo, links);
    }
  }

  lemma WalkLink(fs: FileSystem, cur: Path, todo: seq<string>, links: nat)
    requires ValidFileSystem(fs) && cur in fs && fs[cur] == Dir && todo != [] && links > 0
    requires todo[0] != "" && todo[0] != "." && todo[0] != ".."
    requires cur + [todo[0]] in fs && fs[cur + [todo[0]]].Link?
    ensures var t := fs[cur + [todo[0]]].target;
            Walk(fs, cur, todo, links) ==
            Walk(fs, if HasPrefix(t, "/") then [] else cur, Split(t, '/') + todo[1..], links - 1)
  {
  }

  lemma WalkStops(fs: FileSystem, cur: Path, todo: seq<string>, links: nat)
    requires ValidFileSystem(fs) && cur in fs && !fs[cur].Link? && todo != [] && !CanStep(fs, cur, todo, links)
    ensures Walk(fs, cur, todo, links) ==
            if fs[cur] != Dir then NotDir else if cur + [todo[0]] !in fs then NotExist else TooManyLinks
  {
  }

  /** More links allowed: the same place, or the same failure unless that was for want of links. */
  lemma {:induction false} WalkMoreLinks(fs: FileSystem, cur: Path, todo: seq<string>, links: nat, more: nat)
    requires ValidFileSystem(fs) && cur in fs && !fs[cur].Link?
    requires Walk(fs, cur, todo, links) != TooManyLinks
    ensures Walk(fs, cur, todo, links + more) ==
            match Walk(fs, cur, todo, links)
            case At(p, left) => At(p, left + more)
            case w => w
    decreases links, |todo|
  {
    if todo != [] {
      if CanStep(fs, cur, todo, links) {
        var (c, t, l) := StepTo(fs, cur, todo, links);
        WalkStep(fs, cur, todo, links);
        WalkStep(fs, cur, todo, links + more);
        WalkMoreLinks(fs, c, t, l, more);
      } else {
        WalkStops(fs, cur, todo, links);
        WalkStops(fs, cur, todo, links + more);
      }
    }
  }

  /** A real path leads to itself. */
  lemma {:induction false} WalkReal(fs: FileSystem, p: Path, n: nat, links: nat)
    requires ValidFileSystem(fs) && p in fs && !fs[p].Link? && n <= |p|
    ensures p[..n] in fs && !fs[p[..n]].Link?
    ensures Walk(fs, p[..n], p[n..], links) == At(p, links)
    decreases |p| - n
  {
    if n == |p| {
      assert p[..n] == p;
    } else {
      PrefixesAreDirs(fs, p, n);
      WalkReal(fs, p, n + 1, links);
      assert p[..n] + [p[n]] == p[..n + 1] && p[n..][1..] == p[n + 1..];
    }
  }

  /** Cleaning a path is what following it does where no link is met. */
  lemma {:induction false} CleanIsWalk(fs: FileSystem, cur: Path, todo: seq<string>, links: nat)
    requires ValidFileSystem(fs) && cur in fs && forall p :: p in fs ==> !fs[p].Link?
    requires Walk(fs, cur, todo, links).At?
    ensures Walk(fs, cur, todo, links) == At(CleanFrom(cur, todo), links)
    decreases |todo|
  {
    if todo != [] {
      assert InDirectory(fs, cur);
      if todo[0] == "" || todo[0] == "." {
        CleanIsWalk(fs, cur, todo[1..], links);
      } else if todo[0] == ".." {
        CleanIsWalk(fs, Parent(cur), todo[1..], links);
      } else {
        CleanIsWalk(fs, cur + [todo[0]], todo[1..], links);
      }
    }
  }

  // ---------- SafeJoin ----------

  datatype Result<+T> = Ok(value: T) | PathEscape | Failed(error: Walked)

  /** resolveExisting, from a point of its loop: `cur` joined with `missing` is the path asked for. */
  function ResolveFrom(fs: FileSystem, cur: Path, missing: Path): Result<Path>
    requires ValidFileSystem(fs)
    decreases |cur|
  {
    match EvalSymlinks(fs, cur)
    case At(resolved, _) => Ok(resolved + missing)
    case NotExist =>
      if cur == [] then Ok(missing)
      else ResolveFrom(fs, Parent(cur), [cur[|cur| - 1]] + missing)
    case e => Failed(e)
  }

  function ResolveExisting(fs: FileSystem, p: Path): Result<Path>
    requires ValidFileSystem(fs)
  {
    ResolveFrom(fs, p, [])
  }

  lemma ResolveStep(fs: FileSystem, cur: Path, missing: Path, w: Walked)
    requires ValidFileSystem(fs) && w == EvalSymlinks(fs, cur)
    ensures w.At? ==> ResolveFrom(fs, cur, missing) == Ok(w.path + missing)
    ensures w == NotExist && cur != [] ==>
              ResolveFrom(fs, cur, missing) == ResolveFrom(fs, Parent(cur), [cur[|cur| - 1]] + missing)
    ensures w == NotExist && cur == [] ==> ResolveFrom(fs, cur, missing) == Ok(missing)
    ensures w == NotDir || w == TooManyLinks ==> ResolveFrom(fs, cur, missing) == Failed(w)
  {
  }

  /** The loop of resolveExisting: it ends, and always has cur joined with missing equal to p. */
  method ResolveExistingLoop(fs: FileSystem, p: Path) returns (r: Result<Path>)
    requires ValidFileSystem(fs)
    ensures r == ResolveExisting(fs, p)
  {
    ghost var goal := ResolveExisting(fs, p);
    var missing: Path := [];
    var cur := p;
    while true
      invariant cur + missing == p
      invariant ResolveFrom(fs, cur, missing) == goal
      decreases |cur|
    {
      var resolved := EvalSymlinks(fs, cur);
      ResolveStep(fs, cur, missing, resolved);
      if resolved.At? {
        return Ok(resolved.path + missing);
      }
      if resolved != NotExist {
        return Failed(resolved);
      }
      if |Parent(cur)| == |cur| {
        return Ok(p);
      }
      missing, cur := [cur[|cur| - 1]] + missing, Parent(cur);
    }
  }

  function Candidate(root: Path, rel: string): Path {
    root + Clean("/" + rel)
  }

  function SafeJoin(fs: FileSystem, limit: nat, root: Path, rel: string): Result<Path>
    requires ValidFileSystem(fs)
  {
    var candidate := Candidate(root, rel);
    if !WithinRoot(Render(root), Render(candidate)) then PathEscape
    else match ResolveExisting(fs, candidate)
      case Ok(resolved) =>
        if !WithinRoot(Render(root), Render(resolved)) then PathEscape
        else if candidate != root && Lstat(fs, limit, candidate).Some? && Lstat(fs, limit, candidate).value.Link?
        then PathEscape
        else Ok(candidate)
      case e => e
  }

  lemma CandidateIsPath(root: Path, rel: string)
    requires IsPath(root)
    ensures IsPath(Candidate(root, rel))
  {
    SplitPartsPlain("/" + rel, '/');
    CleanIsPath([], Split("/" + rel, '/'));
  }

  /** `..` never climbs above root: the candidate is below root for every `rel`, so the first test of
      SafeJoin never fires and only links can make it refuse. */
  lemma DotDotStaysBelow(root: Path, rel: string)
    requires IsPath(root)
    ensures root <= Candidate(root, rel) && WithinRoot(Render(root), Render(Candidate(root, rel)))
  {
    CandidateIsPath(root, rel);
    WithinRootIsPrefix(root, Candidate(root, rel));
  }

  lemma {:induction false} ResolvedIsPath(fs: FileSystem, cur: Path, missing: Path)
    requires ValidFileSystem(fs) && IsPath(cur) && IsPath(missing)
    ensures ResolveFrom(fs, cur, missing).Ok? ==> IsPath(ResolveFrom(fs, cur, missing).value)
    decreases |cur|
  {
    var w := EvalSymlinks(fs, cur);
    if w.At? {
      EntriesArePaths(fs, w.path);
    } else if w == NotExist && cur != [] {
      ResolvedIsPath(fs, Parent(cur), [cur[|cur| - 1]] + missing);
    }
  }

  lemma WalkOne(fs: FileSystem, d: Path, name: string, links: nat)
    requires ValidFileSystem(fs) && d in fs && fs[d] == Dir && IsName(name)
    ensures var q := d + [name];
            (q !in fs ==> Walk(fs, d, [name], links) == NotExist) &&
            (q in fs && !fs[q].Link? ==> Walk(fs, d, [name], links) == At(q, links))
  {
    assert [name][1..] == [];
  }

  /** EvalSymlinks passes through the directory that the system call reaches. */
  lemma EvalThroughParent(fs: FileSystem, limit: nat, p: Path) returns (d: Path, left: nat)
    requires ValidFileSystem(fs) && limit <= MAX_LINKS && p != [] && Entry(fs, limit, p).Some?
    ensures d in fs && fs[d] == Dir && Entry(fs, limit, p) == Some(d + [p[|p| - 1]])
    ensures EvalSymlinks(fs, Parent(p)) == At(d, left)
    ensures EvalSymlinks(fs, p) == Walk(fs, d, [p[|p| - 1]], left)
  {
    var w := Walk(fs, [], Parent(p), limit);
    WalkMoreLinks(fs, [], Parent(p), limit, MAX_LINKS - limit);
    d, left := w.path, w.links + (MAX_LINKS - limit);
    assert Parent(p) + [p[|p| - 1]] == p;
    WalkConcat(fs, [], Parent(p), [p[|p| - 1]], MAX_LINKS);
  }

  /** If the parent can be reached, resolveExisting has found the very entry a system call acts on -
      or, when that entry is a symbolic link, at least Lstat has. */
  lemma ResolvedEntry(fs: FileSystem, limit: nat, p: Path)
    requires ValidFileSystem(fs) && limit <= MAX_LINKS && IsPath(p) && p != []
    requires Entry(fs, limit, p).Some?
    ensures var q := Entry(fs, limit, p).value;
            if q in fs && fs[q].Link? then Lstat(fs, limit, p) == Some(fs[q])
            else ResolveExisting(fs, p) == Ok(q)
  {
    var d, left := EvalThroughParent(fs, limit, p);
    var name := p[|p| - 1];
    WalkOne(fs, d, name, left);
    assert d + [name] + [] == d + [name] && [name] + [] == [name];
    ResolveStep(fs, p, [], EvalSymlinks(fs, p));
    ResolveStep(fs, Parent(p), [name], At(d, left));
  }

  /** Main theorem: whatever links the file system has, if SafeJoin hands out a path then a system call on
      it that does not follow a final link either fails or acts on an entry inside root. */
  lemma SafeJoinStaysInside(fs: FileSystem, limit: nat, root: Path, rel: string)
    requires ValidFileSystem(fs) && root in fs && fs[root] == Dir
    requires limit <= MAX_LINKS
    requires SafeJoin(fs, limit, root, rel).Ok?
    ensures var p := SafeJoin(fs, limit, root, rel).value;
            root <= p && match Entry(fs, limit, p)
                         case Some(q) => root <= q && (q in fs ==> !fs[q].Link?)
                         case None => true
  {
    EntriesArePaths(fs, root);
    DotDotStaysBelow(root, rel);
    CandidateIsPath(root, rel);
    var p := Candidate(root, rel);
    if Entry(fs, limit, p).Some? && p != [] {
      var q := Entry(fs, limit, p).value;
      ResolvedEntry(fs, limit, p);
      if q in fs && fs[q].Link? {
        assert p == root;
        RootEntry(fs, limit, root);
      } else {
        ResolvedIsPath(fs, p, []);
        WithinRootIsPrefix(root, q);
      }
    }
  }

  lemma RootEntry(fs: FileSystem, limit: nat, root: Path)
    requires ValidFileSystem(fs) && root in fs && root != []
    ensures Entry(fs, limit, root) == Some(root)
  {
    var n := |root| - 1;
    PrefixesAreDirs(fs, root, n);
    WalkReal(fs, Parent(root), 0, limit);
    assert Parent(root)[..0] == [] && Parent(root)[0..] == Parent(root);
    assert Parent(root) + [root[n]] == root;
  }

  /** Conversely, nothing is refused without a link: where no entry is one, SafeJoin hands out every path
      below root, except below a file. */
  lemma LinkFreeAccepts(fs: FileSystem, limit: nat, root: Path, rel: string)
    requires ValidFileSystem(fs) && root in fs && fs[root] == Dir
    requires forall p :: p in fs ==> !fs[p].Link?
    ensures SafeJoin(fs, limit, root, rel) ==
            if FileAbove(fs, Candidate(root, rel)) then Failed(NotDir) else Ok(Candidate(root, rel))
  {
    EntriesArePaths(fs, root);
    DotDotStaysBelow(root, rel);
    CandidateIsPath(root, rel);
    var p := Candidate(root, rel);
    LinkFreeResolves(fs, p, []);
    assert p + [] == p;
  }

  /** A file is met before the end of the path. */
  predicate FileAbove(fs: FileSystem, p: Path) {
    exists n | 0 <= n < |p| :: p[..n] in fs && fs[p[..n]] == File
  }

  lemma {:induction false} LinkFreeWalk(fs: FileSystem, p: Path, n: nat, links: nat)
    requires ValidFileSystem(fs) && IsPath(p) && n <= |p| && p[..n] in fs
    requires forall q :: q in fs ==> !fs[q].Link?
    ensures Walk(fs, p[..n], p[n..], links) ==
            if p in fs then At(p, links) else if FileAbove(fs, p) then NotDir else NotExist
    decreases |p| - n
  {
    if n == |p| {
      assert p[..n] == p && p[n..] == [];
    } else if fs[p[..n]] == Dir {
      assert p[n..][0] == p[n] && p[n..][1..] == p[n + 1..] && p[..n] + [p[n]] == p[..n + 1];
      assert IsName(p[n]);
      if p[..n + 1] in fs {
        LinkFreeWalk(fs, p, n + 1, links);
      } else {
        forall k | n < k <= |p|
          ensures p[..k] !in fs
        {
          if p[..k] in fs && k > n + 1 {
            PrefixIn(fs, p, n + 1, k);
          }
        }
        assert p[..|p|] == p;
        forall k | 0 <= k < |p| && p[..k] in fs
          ensures fs[p[..k]] == Dir
        {
          if k < n {
            PrefixIn(fs, p, k, n);
          }
        }
      }
    } else {
      assert FileAbove(fs, p);
      if p in fs {
        PrefixesAreDirs(fs, p, n);
      }
    }
  }

  lemma LinkFreeStep(fs: FileSystem, cur: Path, missing: Path)
    requires ValidFileSystem(fs) && IsPath(cur) && forall q :: q in fs ==> !fs[q].Link?
    ensures cur in fs ==> ResolveFrom(fs, cur, missing) == Ok(cur + missing)
    ensures FileAbove(fs, cur) ==> cur !in fs && ResolveFrom(fs, cur, missing) == Failed(NotDir)
    ensures cur !in fs && !FileAbove(fs, cur) ==>
              cur != [] && ResolveFrom(fs, cur, missing) == ResolveFrom(fs, Parent(cur), [cur[|cur| - 1]] + missing)
  {
    LinkFreeEval(fs, cur);
    ResolveStep(fs, cur, missing, EvalSymlinks(fs, cur));
    if cur in fs {
      NoFileAbove(fs, cur);
    }
  }

  lemma {:induction false} LinkFreeResolves(fs: FileSystem, cur: Path, missing: Path)
    requires ValidFileSystem(fs) && IsPath(cur) && forall q :: q in fs ==> !fs[q].Link?
    ensures ResolveFrom(fs, cur, missing) == if FileAbove(fs, cur) then Failed(NotDir) else Ok(cur + missing)
    decreases |cur|
  {
    LinkFreeStep(fs, cur, missing);
    if cur !in fs && !FileAbove(fs, cur) {
      var parent, rest := Parent(cur), [cur[|cur| - 1]] + missing;
      assert parent + rest == cur + missing;
      assert ResolveFrom(fs, cur, missing) == ResolveFrom(fs, parent, rest);
      assert !FileAbove(fs, parent) by {
        if FileAbove(fs, parent) {
          FileAboveParent(fs, cur);
        }
      }
      assert ResolveFrom(fs, parent, rest) == Ok(parent + rest) by {
        LinkFreeResolves(fs, parent, rest);
      }
    }
  }

  lemma FileAboveParent(fs: FileSystem, p: Path)
    requires FileAbove(fs, Parent(p))
    ensures FileAbove(fs, p)
  {
    var n :| 0 <= n < |Parent(p)| && Parent(p)[..n] in fs && fs[Parent(p)[..n]] == File;
    assert Parent(p)[..n] == p[..n];
  }

  lemma NoFileAbove(fs: FileSystem, p: Path)
    requires ValidFileSystem(fs) && p in fs
    ensures !FileAbove(fs, p)
  {
    forall n | 0 <= n < |p| ensures p[..n] in fs && fs[p[..n]] == Dir {
      PrefixesAreDirs(fs, p, n);
    }
  }

  lemma LinkFreeEval(fs: FileSystem, p: Path)
    requires ValidFileSystem(fs) && IsPath(p) && forall q :: q in fs ==> !fs[q].Link?
    ensures EvalSymlinks(fs, p) == if p in fs then At(p, MAX_LINKS) else if FileAbove(fs, p) then NotDir else NotExist
  {
    LinkFreeWalk(fs, p, 0, MAX_LINKS);
    assert p[..0] == [] && p[0..] == p;
  }

  // ---------- What SafeJoin answers where there are links ----------

  /** The first n components of p are there and lead to d, links followed; one more is not there. */
  ghost predicate DeepestAt(fs: FileSystem, p: Path, n: nat, d: Path)
    requires ValidFileSystem(fs)
  {
    n <= |p| && EvalSymlinks(fs, p[..n]).At? && EvalSymlinks(fs, p[..n]).path == d &&
    (n < |p| ==> EvalSymlinks(fs, p[..n + 1]) == NotExist)
  }

  /** The deepest part of p that is there leads into root. */
  ghost predicate LeadsInto(fs: FileSystem, p: Path, root: Path)
    requires ValidFileSystem(fs)
  {
    exists n: nat, d: Path :: DeepestAt(fs, p, n, d) && root <= d
  }

  /** A walk that fails on the way fails. */
  lemma EvalFailsEarly(fs: FileSystem, p: Path, n: nat)
    requires ValidFileSystem(fs) && n <= |p| && !EvalSymlinks(fs, p[..n]).At?
    ensures EvalSymlinks(fs, p) == EvalSymlinks(fs, p[..n])
  {
    assert p == p[..n] + p[n..];
    WalkConcat(fs, [], p[..n], p[n..], MAX_LINKS);
  }

  lemma {:induction false} ResolveDeepest(fs: FileSystem, p: Path, n: nat, d: Path, k: nat)
    requires ValidFileSystem(fs) && DeepestAt(fs, p, n, d) && n <= k <= |p|
    ensures ResolveFrom(fs, p[..k], p[k..]) == Ok(d + p[n..])
    decreases k
  {
    ResolveStep(fs, p[..k], p[k..], EvalSymlinks(fs, p[..k]));
    if k > n {
      assert p[..k][..n + 1] == p[..n + 1];
      EvalFailsEarly(fs, p[..k], n + 1);
      assert Parent(p[..k]) == p[..k - 1] && [p[..k][k - 1]] + p[k..] == p[k - 1..];
      ResolveDeepest(fs, p, n, d, k - 1);
    }
  }

  /** What is missing begins with a name that is no directory. */
  lemma MissingIsNoDir(fs: FileSystem, p: Path, n: nat, d: Path)
    requires ValidFileSystem(fs) && IsPath(p) && DeepestAt(fs, p, n, d) && n < |p|
    ensures !(d + [p[n]] in fs && fs[d + [p[n]]] == Dir)
  {
    var q, left := d + [p[n]], EvalSymlinks(fs, p[..n]).links;
    assert p[..n + 1] == p[..n] + [p[n]];
    if q in fs {
      assert InDirectory(fs, q) && Parent(q) == d;
      WalkOne(fs, d, p[n], left);
    }
    WalkConcat(fs, [], p[..n], [p[n]], MAX_LINKS);
  }

  /** Every part of a directory's path is one. */
  lemma PartIsDir(fs: FileSystem, root: Path, n: nat)
    requires ValidFileSystem(fs) && root in fs && fs[root] == Dir && n <= |root|
    ensures root[..n] in fs && fs[root[..n]] == Dir
  {
    if n < |root| {
      PrefixesAreDirs(fs, root, n);
    } else {
      assert root[..n] == root;
    }
  }

  lemma DeepestInRoot(fs: FileSystem, root: Path, p: Path, n: nat, d: Path)
    requires ValidFileSystem(fs) && root in fs && fs[root] == Dir && IsPath(p)
    requires DeepestAt(fs, p, n, d)
    ensures root <= d + p[n..] <==> root <= d
  {
    var found := d + p[n..];
    if root <= found {
      if |root| <= |d| {
        assert root == found[..|root|] == d[..|root|];
      } else {
        assert root[..|d| + 1] == found[..|d| + 1] == d + [p[n]];
        PartIsDir(fs, root, |d| + 1);
        MissingIsNoDir(fs, p, n, d);
      }
    }
  }

  lemma {:induction false} Deepest(fs: FileSystem, p: Path, k: nat) returns (n: nat, d: Path)
    requires ValidFileSystem(fs) && EvalSymlinks(fs, p) != NotDir && EvalSymlinks(fs, p) != TooManyLinks
    requires k <= |p| && (k < |p| ==> EvalSymlinks(fs, p[..k + 1]) == NotExist)
    ensures DeepestAt(fs, p, n, d)
    decreases k
  {
    var w := EvalSymlinks(fs, p[..k]);
    if w.At? {
      n, d := k, w.path;
    } else {
      EvalFailsEarly(fs, p, k);
      assert k > 0 by { assert p[..0] == []; }
      n, d := Deepest(fs, p, k - 1);
    }
  }

  lemma ResolvesInto(fs: FileSystem, root: Path, p: Path)
    requires ValidFileSystem(fs) && root in fs && fs[root] == Dir && IsPath(p)
    requires EvalSymlinks(fs, p) != NotDir && EvalSymlinks(fs, p) != TooManyLinks
    ensures ResolveExisting(fs, p).Ok? && (root <= ResolveExisting(fs, p).value <==> LeadsInto(fs, p, root))
  {
    assert p[..|p|] == p && p[|p|..] == [];
    var n, d := Deepest(fs, p, |p|);
    ResolveDeepest(fs, p, n, d, |p|);
    DeepestInRoot(fs, root, p, n, d);
    if LeadsInto(fs, p, root) {
      var n', d' :| DeepestAt(fs, p, n', d') && root <= d';
      ResolveDeepest(fs, p, n', d', |p|);
    }
  }

  /** A system call that does not follow a final link meets one. */
  predicate EndsAtLink(fs: FileSystem, limit: nat, p: Path)
    requires ValidFileSystem(fs)
  {
    match Entry(fs, limit, p)
    case Some(q) => q in fs && fs[q].Link?
    case None => false
  }

  /** Main theorem, for any file system and any relative path: SafeJoin hands out the path of root itself, and each
      path that ends at no link and whose deepest part that is there leads into root, through links or not. */
  lemma SafeJoinIs(fs: FileSystem, limit: nat, root: Path, rel: string)
    requires ValidFileSystem(fs) && root in fs && fs[root] == Dir
    ensures var p := Candidate(root, rel);
            var w := EvalSymlinks(fs, p);
            SafeJoin(fs, limit, root, rel) ==
            if w == NotDir || w == TooManyLinks then Failed(w)
            else if p == root || (!EndsAtLink(fs, limit, p) && LeadsInto(fs, p, root)) then Ok(p)
            else PathEscape
  {
    var p := Candidate(root, rel);
    var w := EvalSymlinks(fs, p);
    EntriesArePaths(fs, root);
    CandidateIsPath(root, rel);
    DotDotStaysBelow(root, rel);
    ResolveStep(fs, p, [], w);
    assert p[..|p|] == p && p[|p|..] == [];
    if w != NotDir && w != TooManyLinks {
      ResolvesInto(fs, root, p);
      ResolvedIsPath(fs, p, []);
      WithinRootIsPrefix(root, ResolveExisting(fs, p).value);
    }
    if p == root {
      WalkReal(fs, root, 0, MAX_LINKS);
      assert root[..0] == [] && root[0..] == root && DeepestAt(fs, p, |p|, root);
    }
  }

  /** In terms of the entry that a system call on the path reaches: it must lie in root and be no link. */
  lemma SafeJoinAtEntryIff(fs: FileSystem, limit: nat, root: Path, rel: string, q: Path)
    requires ValidFileSystem(fs) && root in fs && fs[root] == Dir && limit <= MAX_LINKS
    requires Entry(fs, limit, Candidate(root, rel)) == Some(q)
    ensures var p := Candidate(root, rel);
            SafeJoin(fs, limit, root, rel) == Ok(p) <==> p == root || (root <= q && (q in fs ==> !fs[q].Link?))
  {
    var p := Candidate(root, rel);
    EntriesArePaths(fs, root);
    CandidateIsPath(root, rel);
    DotDotStaysBelow(root, rel);
    SafeJoinIs(fs, limit, root, rel);
    if p == root {
      WalkReal(fs, root, 0, MAX_LINKS);
      assert root[..0] == [] && root[0..] == root;
    } else if !EndsAtLink(fs, limit, p) {
      ResolvedEntry(fs, limit, p);
      ResolvedIsPath(fs, p, []);
      WithinRootIsPrefix(root, q);
    }
  }
}

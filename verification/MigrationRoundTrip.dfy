/** internal/modules/migration/backend.go: a packed site unpacks to what it was. */
module MigrationRoundTrip {
  import opened Text
  import opened SafePath
  import opened Directories
  import opened Migration

  /** The name of a packed entry leads back to its place. */
  lemma RelNameCleans(p: Path)
    requires IsPath(p)
    ensures Clean("/" + RelName(p)) == p && Clean("/" + RelName(p) + "/") == p
  {
    var name := "/" + RelName(p);
    if p == [] {
      SplitConcat("", ".", '/');
      SplitPlain(".", '/');
      assert "" + ['/'] + "." == name;
      assert Split(name, '/') == [""] + ["."];
      assert ["", "."][1..] == ["."] && ["."][1..] == [];
      assert CleanFrom([], ["", "."]) == CleanFrom([], ["."]) == CleanFrom([], []);
    } else {
      assert name == Render(p);
      CleanRendered(p);
    }
    SplitConcat(name, "", '/');
    assert name + ['/'] + "" == name + "/";
    CleanConcat([], Split(name, '/'), [""]);
    assert [""][1..] == [];
  }

  lemma MemberPlace(root: Path, p: Path, s: Source)
    requires IsPath(root) && IsPath(p)
    ensures var name := MemberOf(p, s).name;
            IsSiteName(name) && name != ManifestName() && name != DBEntryName() &&
            Candidate(root, SiteRel(name)) == root + p
  {
    var name := MemberOf(p, s).name;
    var rel := if s.SourceDir? then RelName(p) + "/" else RelName(p);
    RelNameCleans(p);
    assert |RelName(p)| > 0 by {
      if p != [] {
        assert IsName(p[0]);
      }
    }
    assert name == SitePrefix() + rel;
    assert "/" + (RelName(p) + "/") == "/" + RelName(p) + "/";
    assert name[0] == 's';
  }

  /** What the source had is there, byte for byte. */
  predicate Restores(t: Target, q: Path, s: Source) {
    match s
    case SourceDir => q in t.fs && t.fs[q] == Dir
    case SourceFile(data) => q in t.fs && t.fs[q] == File && q in t.bytes && t.bytes[q] == data
    case _ => true
  }

  lemma {:induction false} TreePath(tree: Tree, p: Path)
    requires ValidTree(tree) && p in tree
    ensures IsPath(p)
  {
    if p != [] {
      assert InSourceDir(tree, p);
      TreePath(tree, Parent(p));
      FrontAndLast(p);
    }
  }

  /** What stands at the place of an entry has its kind; an entry that is not packed needs a place free of links. */
  predicate SameKind(n: Node, s: Source) {
    match s
    case SourceDir => n == Dir
    case SourceFile(_) => n == File
    case _ => !n.Link?
  }

  /** The site can be unpacked over what is below root. */
  predicate FitsAt(fs: FileSystem, root: Path, tree: Tree, p: Path) {
    p in tree && root + p in fs ==> SameKind(fs[root + p], tree[p])
  }

  ghost predicate Fits(fs: FileSystem, root: Path, tree: Tree, places: seq<Path>) {
    forall p :: p in places ==> FitsAt(fs, root, tree, p)
  }

  /** From t0 to t the entries of `done` have been restored, and nothing else below root has changed. */
  ghost predicate Restoring(t0: Target, t: Target, root: Path, tree: Tree, done: seq<Path>) {
    forall p {:trigger InPlace(t0, t, root, tree, done, p)} :: InPlace(t0, t, root, tree, done, p)
  }

  predicate InPlace(t0: Target, t: Target, root: Path, tree: Tree, done: seq<Path>, p: Path) {
    if p in done && p in tree && Kept(tree[p]) then Restores(t, root + p, tree[p]) else Unchanged(t0, t, root + p)
  }

  lemma PlaceAdded(t0: Target, t: Target, t1: Target, root: Path, tree: Tree, done: seq<Path>, p: Path)
    requires Restoring(t0, t, root, tree, done) && p in tree && Kept(tree[p])
    requires Restores(t1, root + p, tree[p]) && forall q :: q != root + p ==> Unchanged(t, t1, q)
    ensures Restoring(t0, t1, root, tree, done + [p])
  {
    forall q
      ensures InPlace(t0, t1, root, tree, done + [p], q)
    {
      assert InPlace(t0, t, root, tree, done, q);
      assert (root + q)[|root|..] == q && (root + p)[|root|..] == p;
      if q != p {
        assert Unchanged(t, t1, root + q);
      }
    }
  }

  lemma PlaceSkipped(t0: Target, t: Target, root: Path, tree: Tree, done: seq<Path>, p: Path)
    requires Restoring(t0, t, root, tree, done) && p in tree && !Kept(tree[p])
    ensures Restoring(t0, t, root, tree, done + [p])
  {
    forall q
      ensures InPlace(t0, t, root, tree, done + [p], q)
    {
      assert InPlace(t0, t, root, tree, done, q);
    }
  }

  /** The target is fit for the next member of a packed site: the root is a directory, by its own name. */
  ghost predicate Ready(t: Target, root: Path) {
    ValidTarget(t) && IsPath(root) && root in t.fs && t.fs[root] == Dir
  }

  lemma ReadyNext(t: Target, m: Member, root: Path, wantDump: bool)
    requires Ready(t, root)
    ensures Ready(UnpackMember(t, m, root, wantDump).0, root)
  {
    MemberGrows(t, m, root, wantDump);
  }

  /** Above the place of the next entry there is a real directory, and the place itself is as it was. */
  lemma PlaceIsNext(t0: Target, t: Target, root: Path, tree: Tree, done: seq<Path>, p: Path)
    requires Ready(t, root) && ValidTree(tree) && Restoring(t0, t, root, tree, done) && p in tree && p !in done
    requires p != [] ==> Parent(p) == [] || Parent(p) in done
    ensures Unchanged(t0, t, root + p) && (FitsAt(t.fs, root, tree, p) <==> FitsAt(t0.fs, root, tree, p))
    ensures p != [] ==> Parent(root + p) in t.fs && t.fs[Parent(root + p)] == Dir
  {
    assert InPlace(t0, t, root, tree, done, p);
    if p != [] {
      assert InSourceDir(tree, p);
      assert InPlace(t0, t, root, tree, done, Parent(p));
      assert Parent(root + p) == root + Parent(p);
      assert Parent(p) == [] ==> root + Parent(p) == root;
    }
  }

  /** Nothing changes but the entry at q. */
  ghost predicate OnlyAt(t: Target, t1: Target, q: Path) {
    t1.dump == t.dump && t1.hasDB == t.hasDB && forall other :: other != q ==> Unchanged(t, t1, other)
  }

  /** A file of the site where there is no link. */
  lemma RestoreFile(t: Target, dest: Path, m: Member, data: Bytes)
    requires ValidTarget(t) && IsPath(dest) && dest != [] && Parent(dest) in t.fs && t.fs[Parent(dest)] == Dir
    requires dest in t.fs ==> !t.fs[dest].Link?
    requires m.kind == RegularMember && m.data == data && m.breaksAt == None && |data| <= t.budget
    ensures var (t1, e) := Extract(t, dest, m);
            (e.None? <==> dest in t.fs ==> t.fs[dest] == File) &&
            (e.None? ==> Restores(t1, dest, SourceFile(data)) && OnlyAt(t, t1, dest))
  {
    RealPlace(t.fs, dest);
    assert Copied(m, t.budget) == data && !Broken(m);
  }

  lemma RestoreDir(t: Target, dest: Path, m: Member)
    requires ValidTarget(t) && IsPath(dest) && dest != [] && Parent(dest) in t.fs && t.fs[Parent(dest)] == Dir
    requires dest in t.fs ==> !t.fs[dest].Link?
    requires m.kind == DirMember
    ensures var (t1, e) := Extract(t, dest, m);
            (e.None? <==> dest in t.fs ==> t.fs[dest] == Dir) &&
            (e.None? ==> Restores(t1, dest, SourceDir) && OnlyAt(t, t1, dest))
  {
    RealPlace(t.fs, dest);
  }

  /** Without a link at its place, an entry is restored if and only if what stands there has its kind. */
  lemma RestoreOne(t0: Target, t: Target, root: Path, tree: Tree, done: seq<Path>, p: Path)
    requires Ready(t, root) && ValidTree(tree) && Restoring(t0, t, root, tree, done) && p in tree && IsPath(p)
    requires (p != [] ==> Parent(p) == [] || Parent(p) in done) && p !in done
    requires !tree[p].SourceSocket? && FileSize(tree[p]) <= t.budget
    requires p != [] && root + p in t.fs ==> !t.fs[root + p].Link?
    ensures var (t1, e) := Extract(t, root + p, MemberOf(p, tree[p]));
            (e.None? <==> FitsAt(t.fs, root, tree, p)) &&
            (e.None? ==> Restoring(t0, t1, root, tree, done + [p]) && t1.dump == t.dump && t1.hasDB == t.hasDB)
  {
    PlaceIsNext(t0, t, root, tree, done, p);
    if p == [] {
      assert root + p == root;
      StatReal(t.fs, root);
      PlaceAdded(t0, t, t, root, tree, done, p);
    } else if Kept(tree[p]) {
      RestoreKept(t0, t, root, tree, done, p);
    } else {
      PlaceSkipped(t0, t, root, tree, done, p);
    }
  }

  lemma RestoreKept(t0: Target, t: Target, root: Path, tree: Tree, done: seq<Path>, p: Path)
    requires Ready(t, root) && Restoring(t0, t, root, tree, done) && p in tree && IsPath(p) && p != [] && Kept(tree[p])
    requires Parent(root + p) in t.fs && t.fs[Parent(root + p)] == Dir && FileSize(tree[p]) <= t.budget
    requires root + p in t.fs ==> !t.fs[root + p].Link?
    ensures var (t1, e) := Extract(t, root + p, MemberOf(p, tree[p]));
            (e.None? <==> FitsAt(t.fs, root, tree, p)) &&
            (e.None? ==> Restoring(t0, t1, root, tree, done + [p]) && t1.dump == t.dump && t1.hasDB == t.hasDB)
  {
    var m := MemberOf(p, tree[p]);
    var (t1, e) := Extract(t, root + p, m);
    match tree[p] {
      case SourceDir => RestoreDir(t, root + p, m);
      case SourceFile(data) => RestoreFile(t, root + p, m, data);
    }
    if e.None? {
      PlaceAdded(t0, t, t1, root, tree, done, p);
    }
  }

  /** The entries of `todo` can be restored in this order after those of `done`. */
  ghost predicate InOrder(tree: Tree, done: seq<Path>, todo: seq<Path>) {
    (forall p :: p in todo ==> p in tree && p !in done && !tree[p].SourceSocket?) &&
    (forall i, j :: 0 <= i < j < |todo| ==> todo[i] != todo[j]) &&
    forall i :: 0 <= i < |todo| && todo[i] != [] ==> Parent(todo[i]) == [] || Parent(todo[i]) in done + todo[..i]
  }

  lemma InOrderStep(tree: Tree, done: seq<Path>, todo: seq<Path>)
    requires InOrder(tree, done, todo) && todo != []
    ensures todo[0] != [] ==> Parent(todo[0]) == [] || Parent(todo[0]) in done
    ensures InOrder(tree, done + [todo[0]], todo[1..])
  {
    assert done + todo[..0] == done;
    forall i | 0 <= i < |todo| - 1 && todo[1..][i] != []
      ensures Parent(todo[1..][i]) == [] || Parent(todo[1..][i]) in done + [todo[0]] + todo[1..][..i]
    {
      assert done + todo[..i + 1] == done + [todo[0]] + todo[1..][..i];
    }
  }

  function FileSize(s: Source): nat {
    if s.SourceFile? then |s.data| else 0
  }

  /** The sizes of the files of the site. */
  function SiteBytes(tree: Tree, order: seq<Path>): nat
    requires forall p :: p in order ==> p in tree
  {
    if order == [] then 0
    else FileSize(tree[order[0]]) + SiteBytes(tree, order[1..])
  }

  /** SafeJoin lets the member through to its place, unless that is a link. */
  lemma UnpackSiteMember(t: Target, root: Path, p: Path, m: Member, wantDump: bool)
    requires Ready(t, root) && IsPath(p) && t.entries < MAX_UNPACK_ENTRIES
    requires p != [] ==> Parent(root + p) in t.fs && t.fs[Parent(root + p)] == Dir
    requires IsSiteName(m.name) && m.name != ManifestName() && m.name != DBEntryName()
    requires Candidate(root, SiteRel(m.name)) == root + p
    ensures if p != [] && root + p in t.fs && t.fs[root + p].Link? then UnpackMember(t, m, root, wantDump).1.Some?
            else UnpackMember(t, m, root, wantDump) == Extract(t.(entries := t.entries + 1), root + p, m)
  {
    var q := root + p;
    if p == [] {
      assert q == root;
      SafeJoinAccepts(t.fs, root, SiteRel(m.name));
    } else {
      LastOf(q);
      StatReal(t.fs, Parent(q));
      StatLast(t.fs, q, Parent(q), KERNEL_LINKS);
      SafeJoinAtEntryIff(t.fs, KERNEL_LINKS, root, SiteRel(m.name), q);
      SafeJoinIs(t.fs, KERNEL_LINKS, root, SiteRel(m.name));
    }
  }

  lemma RestoreStep(t0: Target, t: Target, root: Path, tree: Tree, done: seq<Path>, p: Path, wantDump: bool)
    requires Ready(t, root) && ValidTree(tree) && Restoring(t0, t, root, tree, done) && p in tree
    requires (p != [] ==> Parent(p) == [] || Parent(p) in done) && p !in done && !tree[p].SourceSocket?
    requires t.entries < MAX_UNPACK_ENTRIES && FileSize(tree[p]) <= t.budget
    ensures var (t1, e) := UnpackMember(t, MemberOf(p, tree[p]), root, wantDump);
            (e.None? <==> FitsAt(t0.fs, root, tree, p)) &&
            (e.None? ==> Ready(t1, root) && Restoring(t0, t1, root, tree, done + [p]) &&
                         t1.dump == t.dump && t1.hasDB == t.hasDB &&
                         t1.entries == t.entries + 1 && t1.budget == t.budget - FileSize(tree[p]))
  {
    var t' := t.(entries := t.entries + 1);
    TreePath(tree, p);
    PlaceIsNext(t0, t, root, tree, done, p);
    MemberPlace(root, p, tree[p]);
    UnpackSiteMember(t, root, p, MemberOf(p, tree[p]), wantDump);
    if !(p != [] && root + p in t.fs && t.fs[root + p].Link?) {
      SameFiles(t0, t, t', root, tree, done);
      RestoreOne(t0, t', root, tree, done, p);
    }
    ReadyNext(t, MemberOf(p, tree[p]), root, wantDump);
    MemberCounts(t, MemberOf(p, tree[p]), root, wantDump);
  }

  /** A member that is restored in full: the rest is unpacked after it. */
  lemma UnpackCons(t: Target, m: Member, rest: seq<Member>, root: Path, wantDump: bool)
    requires ValidTarget(t) && IsPath(root) && !Broken(m) && UnpackMember(t, m, root, wantDump).1.None?
    ensures var t1 := UnpackMember(t, m, root, wantDump).0;
            ValidTarget(t1) &&
            UnpackFrom(t, [m] + rest, false, root, wantDump) == UnpackFrom(t1, rest, false, root, wantDump)
  {
    MemberGrows(t, m, root, wantDump);
    assert ([m] + rest)[1..] == rest;
  }

  lemma UnpackStops(t: Target, m: Member, rest: seq<Member>, root: Path, wantDump: bool)
    requires ValidTarget(t) && IsPath(root) && UnpackMember(t, m, root, wantDump).1.Some?
    ensures UnpackFrom(t, [m] + rest, false, root, wantDump).1.Some?
  {
  }

  lemma FitsCons(fs: FileSystem, root: Path, tree: Tree, places: seq<Path>)
    requires places != []
    ensures Fits(fs, root, tree, places) <==> FitsAt(fs, root, tree, places[0]) && Fits(fs, root, tree, places[1..])
  {
    assert places == [places[0]] + places[1..];
  }

  /** The members of the walk in order, when there is room for them. */
  lemma {:induction false} RestoreSite(t0: Target, t: Target, root: Path, tree: Tree, done: seq<Path>, todo: seq<Path>,
                                       wantDump: bool)
    requires Ready(t, root) && ValidTree(tree) && InOrder(tree, done, todo) && Restoring(t0, t, root, tree, done)
    requires t.entries + |todo| <= MAX_UNPACK_ENTRIES && SiteBytes(tree, todo) <= t.budget
    ensures var (t1, e) := UnpackFrom(t, SiteMembers(tree, todo), false, root, wantDump);
            (e.None? <==> Fits(t0.fs, root, tree, todo)) &&
            (e.None? ==> Restoring(t0, t1, root, tree, done + todo) && t1.dump == t.dump && t1.hasDB == t.hasDB)
    decreases |todo|
  {
    if todo == [] {
      assert done + todo == done;
    } else {
      var p, rest := todo[0], todo[1..];
      var m := MemberOf(p, tree[p]);
      InOrderStep(tree, done, todo);
      RestoreStep(t0, t, root, tree, done, p, wantDump);
      FitsCons(t0.fs, root, tree, todo);
      assert SiteMembers(tree, todo) == [m] + SiteMembers(tree, rest);
      if FitsAt(t0.fs, root, tree, p) {
        var t1 := UnpackMember(t, m, root, wantDump).0;
        UnpackCons(t, m, SiteMembers(tree, rest), root, wantDump);
        RestoreSite(t0, t1, root, tree, done + [p], rest, wantDump);
        assert done + [p] + rest == done + todo;
      } else {
        UnpackStops(t, m, SiteMembers(tree, rest), root, wantDump);
      }
    }
  }

  lemma {:induction false} UnpackConcat(t: Target, a: seq<Member>, b: seq<Member>, torn: bool, root: Path, wantDump: bool)
    requires ValidTarget(t) && IsPath(root)
    ensures var (t1, e) := UnpackFrom(t, a, false, root, wantDump);
            ValidTarget(t1) &&
            UnpackFrom(t, a + b, torn, root, wantDump) ==
            if e.Some? then (t1, e) else UnpackFrom(t1, b, torn, root, wantDump)
    decreases |a|
  {
    if a == [] {
      assert a + b == b;
    } else {
      assert (a + b)[1..] == a[1..] + b;
      MemberGrows(t, a[0], root, wantDump);
      var (t1, e) := UnpackMember(t, a[0], root, wantDump);
      if e.None? && !Broken(a[0]) {
        UnpackConcat(t1, a[1..], b, torn, root, wantDump);
      }
    }
  }

  lemma {:induction false} SiteTotal(tree: Tree, order: seq<Path>, wantDump: bool)
    requires ValidTree(tree) && forall p :: p in order ==> p in tree
    ensures TotalRestored(SiteMembers(tree, order), wantDump) == SiteBytes(tree, order)
    ensures |SiteMembers(tree, order)| == |order|
    decreases |order|
  {
    if order != [] {
      TreePath(tree, order[0]);
      MemberPlace([], order[0], tree[order[0]]);
      SiteTotal(tree, order[1..], wantDump);
      assert SiteMembers(tree, order)[1..] == SiteMembers(tree, order[1..]);
    }
  }

  lemma {:induction false} TotalConcat(a: seq<Member>, b: seq<Member>, wantDump: bool)
    ensures TotalRestored(a + b, wantDump) == TotalRestored(a, wantDump) + TotalRestored(b, wantDump)
    decreases |a|
  {
    if a == [] {
      assert a + b == b;
    } else {
      assert (a + b)[1..] == a[1..] + b;
      TotalConcat(a[1..], b, wantDump);
    }
  }

  /** The destination is a directory with nothing in it, or can be made; there are links wherever you like, but on
      the way to it. */
  ghost predicate EmptyDestination(fs: FileSystem, root: Path) {
    IsPath(root) && Unlinked(fs, root) && forall q :: q in fs && root <= q ==> q == root
  }

  /** A site that can be packed, with the order of its walk. */
  ghost predicate Packable(tree: Tree, order: seq<Path>) {
    ValidTree(tree) && WalkOrder(tree, order) && forall p :: p in tree ==> !tree[p].SourceSocket?
  }

  /** The target when the destination stands. */
  function Started(fs: FileSystem, bytes: map<Path, Bytes>, oldDump: Option<Bytes>, root: Path): Target
    requires ValidFileSystem(fs) && IsPath(root)
  {
    Fresh(MkdirAll(fs, root).fs, bytes, oldDump)
  }

  lemma StartedIsReady(fs: FileSystem, bytes: map<Path, Bytes>, oldDump: Option<Bytes>, root: Path, tree: Tree)
    requires ValidTarget(Fresh(fs, bytes, oldDump)) && IsPath(root) && Unlinked(fs, root)
    ensures var t := Started(fs, bytes, oldDump, root);
            MkdirAll(fs, root).ok && Ready(t, root) && Restoring(t, t, root, tree, [])
  {
    MkdirAllReal(fs, root);
    MkdirGrows(Fresh(fs, bytes, oldDump), root);
  }

  /** Making the destination adds nothing below it. */
  lemma StartedFits(fs: FileSystem, bytes: map<Path, Bytes>, oldDump: Option<Bytes>, root: Path, tree: Tree,
                    order: seq<Path>)
    requires ValidTarget(Fresh(fs, bytes, oldDump)) && IsPath(root) && Unlinked(fs, root) && Packable(tree, order)
    ensures Fits(Started(fs, bytes, oldDump, root).fs, root, tree, order) <==> Fits(fs, root, tree, order)
  {
    MkdirAllReal(fs, root);
    var made := MkdirAll(fs, root).fs;
    assert root[..|root|] == root;
    forall p
      ensures FitsAt(made, root, tree, p) <==> FitsAt(fs, root, tree, p)
    {
      assert p == [] ==> root + p == root;
      assert p != [] ==> !(root + p <= root);
    }
  }

  lemma WalkIsInOrder(tree: Tree, order: seq<Path>)
    requires Packable(tree, order)
    ensures InOrder(tree, [], order)
  {
    assert forall i :: 0 <= i < |order| ==> [] + order[..i] == order[..i];
  }

  /** From t to t1 exactly the site has been unpacked. */
  ghost predicate AfterSite(t0: Target, t: Target, t1: Target, root: Path, tree: Tree, order: seq<Path>)
    requires forall p :: p in order ==> p in tree
  {
    ValidTarget(t1) && Restoring(t0, t1, root, tree, order) && t1.dump == t.dump && t1.hasDB == t.hasDB &&
    t1.entries == t.entries + |order| && t1.budget == t.budget - SiteBytes(tree, order)
  }

  lemma RestoreWholeSite(t0: Target, t: Target, root: Path, tree: Tree, order: seq<Path>, wantDump: bool)
    requires Ready(t, root) && Packable(tree, order) && Restoring(t0, t, root, tree, [])
    requires t.entries + |order| <= MAX_UNPACK_ENTRIES && SiteBytes(tree, order) <= t.budget
    ensures var (t1, e) := UnpackFrom(t, SiteMembers(tree, order), false, root, wantDump);
            (e.None? <==> Fits(t0.fs, root, tree, order)) &&
            (e.None? ==> AfterSite(t0, t, t1, root, tree, order))
  {
    assert [] + order == order;
    WalkIsInOrder(tree, order);
    RestoreSite(t0, t, root, tree, [], order, wantDump);
    UnpackCounts(t, SiteMembers(tree, order), false, root, wantDump);
    SiteTotal(tree, order, wantDump);
  }

  /** The members after the manifest, when there is room for them. */
  lemma RestoreBody(t0: Target, t: Target, root: Path, tree: Tree, order: seq<Path>, dump: Option<Bytes>, wantDump: bool)
    requires Ready(t, root) && Packable(tree, order) && Restoring(t0, t, root, tree, []) && !t.hasDB
    requires t.entries + |order| + |DumpMembers(dump)| <= MAX_UNPACK_ENTRIES
    requires SiteBytes(tree, order) + TotalRestored(DumpMembers(dump), wantDump) <= t.budget
    ensures var (t1, e) := UnpackFrom(t, SiteMembers(tree, order) + DumpMembers(dump), false, root, wantDump);
            (e.None? <==> Fits(t0.fs, root, tree, order)) &&
            (e.None? ==> Restoring(t0, t1, root, tree, order) && t1.hasDB == (wantDump && dump.Some?) &&
                         t1.dump == if wantDump && dump.Some? then dump else t.dump)
  {
    var site, tail := SiteMembers(tree, order), DumpMembers(dump);
    var (t1, e) := UnpackFrom(t, site, false, root, wantDump);
    assert (e.None? <==> Fits(t0.fs, root, tree, order)) && (e.None? ==> AfterSite(t0, t, t1, root, tree, order)) by {
      RestoreWholeSite(t0, t, root, tree, order, wantDump);
    }
    assert ValidTarget(t1) && UnpackFrom(t, site + tail, false, root, wantDump) ==
                              if e.Some? then (t1, e) else UnpackFrom(t1, tail, false, root, wantDump) by {
      UnpackConcat(t, site, tail, false, root, wantDump);
    }
    if e.None? {
      RestoreDump(t0, t1, root, tree, order, dump, wantDump);
    }
  }

  lemma RestoreDump(t0: Target, t: Target, root: Path, tree: Tree, done: seq<Path>, dump: Option<Bytes>, wantDump: bool)
    requires ValidTarget(t) && IsPath(root) && Restoring(t0, t, root, tree, done) && !t.hasDB
    requires t.entries + |DumpMembers(dump)| <= MAX_UNPACK_ENTRIES
    requires TotalRestored(DumpMembers(dump), wantDump) <= t.budget
    ensures var (t1, e) := UnpackFrom(t, DumpMembers(dump), false, root, wantDump);
            e.None? && Restoring(t0, t1, root, tree, done) && t1.hasDB == (wantDump && dump.Some?) &&
            t1.dump == if wantDump && dump.Some? then dump else t.dump
  {
    if dump.Some? {
      var m := DumpMembers(dump)[0];
      assert DumpMembers(dump)[1..] == [];
      assert m.name != ManifestName();
      var (t1, e) := UnpackMember(t, m, root, wantDump);
      MemberGrows(t, m, root, wantDump);
      assert !Broken(m) && (wantDump ==> |m.data| <= t.budget && Copied(m, t.budget) == m.data);
      assert t1.fs == t.fs && t1.bytes == t.bytes;
      SameFiles(t0, t, t1, root, tree, done);
      assert UnpackFrom(t, DumpMembers(dump), false, root, wantDump) == (t1, e);
    }
  }

  lemma SameFiles(t0: Target, t: Target, t1: Target, root: Path, tree: Tree, done: seq<Path>)
    requires Restoring(t0, t, root, tree, done) && t1.fs == t.fs && t1.bytes == t.bytes
    ensures Restoring(t0, t1, root, tree, done)
  {
    forall p {:trigger InPlace(t0, t1, root, tree, done, p)}
      ensures InPlace(t0, t1, root, tree, done, p)
    {
      assert InPlace(t0, t, root, tree, done, p);
    }
  }

  /** The bytes and the members that unpacking a packed site takes. */
  function NeededBytes(tree: Tree, order: seq<Path>, dump: Option<Bytes>, wantDump: bool): nat
    requires forall p :: p in order ==> p in tree
  {
    SiteBytes(tree, order) + if dump.Some? && wantDump then |dump.value| else 0
  }

  function NeededMembers(order: seq<Path>, dump: Option<Bytes>): nat {
    1 + |order| + if dump.Some? then 1 else 0
  }

  lemma DumpNeeds(dump: Option<Bytes>, wantDump: bool)
    ensures TotalRestored(DumpMembers(dump), wantDump) == if dump.Some? && wantDump then |dump.value| else 0
  {
    if dump.Some? {
      var m := DumpMembers(dump)[0];
      assert DumpMembers(dump)[1..] == [];
      assert m.name != ManifestName();
    }
  }

  lemma ManifestNeeds(data: Bytes, wantDump: bool)
    ensures TotalRestored([ManifestMember(data)], wantDump) == 0
  {
    assert [ManifestMember(data)][1..] == [];
  }

  lemma PackedNeeds(codec: Codec, meta: Meta, tree: Tree, order: seq<Path>, dump: Option<Bytes>, wantDump: bool)
    requires Packable(tree, order)
    ensures TotalRestored(Packed(codec, meta, tree, order, dump), wantDump) == NeededBytes(tree, order, dump, wantDump)
    ensures |Packed(codec, meta, tree, order, dump)| == NeededMembers(order, dump)
  {
    var head, site, tail := [ManifestMember(codec.encode(meta))], SiteMembers(tree, order), DumpMembers(dump);
    assert TotalRestored(site, wantDump) == SiteBytes(tree, order) && |site| == |order| by {
      SiteTotal(tree, order, wantDump);
    }
    assert TotalRestored(tail, wantDump) == (if dump.Some? && wantDump then |dump.value| else 0) by {
      DumpNeeds(dump, wantDump);
    }
    assert TotalRestored(head, wantDump) == 0 by {
      ManifestNeeds(codec.encode(meta), wantDump);
    }
    TotalOfThree(head, site, tail, wantDump);
  }

  lemma TotalOfThree(a: seq<Member>, b: seq<Member>, c: seq<Member>, wantDump: bool)
    ensures TotalRestored(a + b + c, wantDump) ==
            TotalRestored(a, wantDump) + TotalRestored(b, wantDump) + TotalRestored(c, wantDump)
  {
    TotalConcat(a + b, c, wantDump);
    TotalConcat(a, b, wantDump);
  }

  lemma RestorePacked(t: Target, codec: Codec, meta: Meta, root: Path, tree: Tree, order: seq<Path>,
                      dump: Option<Bytes>, wantDump: bool)
    requires Ready(t, root) && Packable(tree, order) && Restoring(t, t, root, tree, []) && !t.hasDB && t.entries == 0
    requires NeededBytes(tree, order, dump, wantDump) <= t.budget
    requires NeededMembers(order, dump) <= MAX_UNPACK_ENTRIES
    ensures var (t1, e) := UnpackFrom(t, Packed(codec, meta, tree, order, dump), false, root, wantDump);
            (e.None? <==> Fits(t.fs, root, tree, order)) &&
            (e.None? ==> Restoring(t, t1, root, tree, order) && t1.hasDB == (wantDump && dump.Some?) &&
                         t1.dump == if wantDump && dump.Some? then dump else t.dump)
  {
    var head := [ManifestMember(codec.encode(meta))];
    var body := SiteMembers(tree, order) + DumpMembers(dump);
    var t0 := t.(entries := t.entries + 1);
    ConcatAssoc(head, SiteMembers(tree, order), DumpMembers(dump));
    assert (head + body)[1..] == body;
    SameFiles(t, t, t0, root, tree, []);
    DumpNeeds(dump, wantDump);
    RestoreBody(t, t0, root, tree, order, dump, wantDump);
    assert UnpackMember(t, head[0], root, wantDump) == (t0, None);
  }

  /** Main theorem: a packed site unpacks into a destination free of links on its way if and only if it fits the limits
      and what stands at the places of its entries has their kinds. Then every directory and regular file of the
      site is there with its own bytes, whatever the files held before; everything else is as it was; and the
      dump is where it is wanted. */
  lemma PackUnpackOver(codec: Codec, meta: Meta, tree: Tree, order: seq<Path>, dump: Option<Bytes>,
                       fs: FileSystem, bytes: map<Path, Bytes>, oldDump: Option<Bytes>, root: Path, wantDump: bool)
    requires Packable(tree, order)
    requires ValidTarget(Fresh(fs, bytes, oldDump)) && IsPath(root) && Unlinked(fs, root)
    ensures var archive := Archive(Packed(codec, meta, tree, order, dump), false);
            var (t, e) := Unpack(fs, bytes, oldDump, archive, root, wantDump);
            (e.None? <==> NeededBytes(tree, order, dump, wantDump) <= MAX_UNPACK_BYTES &&
                          NeededMembers(order, dump) <= MAX_UNPACK_ENTRIES && Fits(fs, root, tree, order)) &&
            (e.None? ==> (forall p :: p in tree && Kept(tree[p]) ==> Restores(t, root + p, tree[p])) &&
                         (forall p {:trigger root + p} :: !(p in tree && Kept(tree[p])) ==>
                                                            Unchanged(Started(fs, bytes, oldDump, root), t, root + p)) &&
                         SameOutside(Started(fs, bytes, oldDump, root), t, root) &&
                         t.hasDB == (wantDump && dump.Some?) &&
                         t.dump == if wantDump && dump.Some? then dump else oldDump)
  {
    var t := Started(fs, bytes, oldDump, root);
    var members := Packed(codec, meta, tree, order, dump);
    StartedIsReady(fs, bytes, oldDump, root, tree);
    StartedFits(fs, bytes, oldDump, root, tree, order);
    PackedNeeds(codec, meta, tree, order, dump, wantDump);
    UnpackIsBounded(fs, bytes, oldDump, Archive(members, false), root, wantDump);
    if NeededBytes(tree, order, dump, wantDump) <= MAX_UNPACK_BYTES && NeededMembers(order, dump) <= MAX_UNPACK_ENTRIES {
      RestorePacked(t, codec, meta, root, tree, order, dump, wantDump);
      StatReal(t.fs, root);
      UnpackInside(t, members, false, root, wantDump);
      if Fits(fs, root, tree, order) {
        AllInPlace(t, UnpackFrom(t, members, false, root, wantDump).0, root, tree, order);
      }
    }
  }

  lemma AllInPlace(t0: Target, t: Target, root: Path, tree: Tree, order: seq<Path>)
    requires Packable(tree, order) && Restoring(t0, t, root, tree, order)
    ensures forall p :: p in tree && Kept(tree[p]) ==> Restores(t, root + p, tree[p])
    ensures forall p {:trigger root + p} :: !(p in tree && Kept(tree[p])) ==> Unchanged(t0, t, root + p)
  {
    assert forall p {:trigger root + p} :: InPlace(t0, t, root, tree, order, p);
  }

  /** Into an empty destination: exactly when it fits the limits, and then every directory and regular file is back byte
      for byte and nothing else is there. readManifest gives back what the decoder makes of the encoded Meta. */
  lemma PackUnpackRoundTrip(codec: Codec, meta: Meta, tree: Tree, order: seq<Path>, dump: Option<Bytes>,
                            fs: FileSystem, bytes: map<Path, Bytes>, oldDump: Option<Bytes>, root: Path, wantDump: bool)
    requires Packable(tree, order)
    requires ValidTarget(Fresh(fs, bytes, oldDump)) && EmptyDestination(fs, root)
    ensures var archive := Archive(Packed(codec, meta, tree, order, dump), false);
            var (t, e) := Unpack(fs, bytes, oldDump, archive, root, wantDump);
            (e.None? <==> NeededBytes(tree, order, dump, wantDump) <= MAX_UNPACK_BYTES &&
                          NeededMembers(order, dump) <= MAX_UNPACK_ENTRIES) &&
            (e.None? ==> (forall p {:trigger root + p} :: root + p in t.fs <==> p in tree && Kept(tree[p])) &&
                         (forall p :: p in tree && Kept(tree[p]) ==> Restores(t, root + p, tree[p])) &&
                         t.hasDB == (wantDump && dump.Some?) &&
                         t.dump == if wantDump && dump.Some? then dump else oldDump) &&
            ManifestOf(codec, archive.members, false) ==
            match codec.decode(codec.encode(meta))
            case Some(back) => Found(back)
            case None => BadManifest
  {
    PackUnpackOver(codec, meta, tree, order, dump, fs, bytes, oldDump, root, wantDump);
    NothingThere(fs, bytes, oldDump, root, tree, order);
    var t := Unpack(fs, bytes, oldDump, Archive(Packed(codec, meta, tree, order, dump), false), root, wantDump).0;
    var t0 := Started(fs, bytes, oldDump, root);
    forall p {:trigger root + p} | !(p in tree && Kept(tree[p])) && Unchanged(t0, t, root + p)
      ensures root + p !in t.fs
    {
      assert root + p !in t0.fs;
    }
  }

  lemma NothingThere(fs: FileSystem, bytes: map<Path, Bytes>, oldDump: Option<Bytes>, root: Path, tree: Tree,
                     order: seq<Path>)
    requires Packable(tree, order) && ValidTarget(Fresh(fs, bytes, oldDump)) && EmptyDestination(fs, root)
    ensures Fits(fs, root, tree, order)
    ensures forall p {:trigger root + p} :: p != [] ==> root + p !in Started(fs, bytes, oldDump, root).fs
  {
    MkdirAllReal(fs, root);
    assert root[..|root|] == root;
    forall p {:trigger root + p}
      ensures FitsAt(fs, root, tree, p)
      ensures p != [] ==> root + p !in Started(fs, bytes, oldDump, root).fs
    {
      assert p == [] ==> root + p == root;
      assert p != [] ==> root <= root + p && !(root + p <= root) && root + p != root;
    }
  }
}

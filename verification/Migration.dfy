/** internal/modules/migration/backend.go: packing a site into an archive, and unpacking any archive at all into a
    file system with symbolic links. An archive is the sequence of its members; unpacking never makes a link. */
module Migration {
  import opened Text
  import opened SafePath
  import opened Directories

  type Byte = x: int | 0 <= x < 256
  type Bytes = seq<Byte>

  function ManifestName(): string { "manifest.json" }
  function SitePrefix(): string { "site/" }
  function DBEntryName(): string { "database.sql" }

  const MAX_UNPACK_BYTES: int := 8 * 1024 * 1024 * 1024
  const MAX_UNPACK_ENTRIES: nat := 200_000

  datatype Meta = Meta(name: string, domain: string, sitePath: string, phpVersion: string, dbKind: string,
                       dbName: string, createdAt: int)

  /** The JSON form of Meta. */
  datatype Codec = Codec(encode: Meta -> Bytes, decode: Bytes -> Option<Meta>)

  datatype Kind = DirMember | RegularMember | OtherMember

  /** One member as the reader meets it; the archive may break off after some bytes of its data. */
  datatype Member = Member(name: string, kind: Kind, data: Bytes, breaksAt: Option<nat>)

  predicate Broken(m: Member) {
    m.breaksAt.Some? && m.breaksAt.value < |m.data|
  }

  /** The bytes that can be read of it. */
  function Arrived(m: Member): Bytes {
    if Broken(m) then m.data[..m.breaksAt.value] else m.data
  }

  /** `torn`: no end is found after the last member. */
  datatype Archive = Archive(members: seq<Member>, torn: bool)

  // ---------- Packing ----------

  datatype Source = SourceDir | SourceFile(data: Bytes) | SourceLink | SourceSocket

  /** The tree below the site root, by relative path; links stand for devices and pipes too. */
  type Tree = map<Path, Source>

  ghost predicate ValidTree(tree: Tree) {
    [] in tree && tree[[]] == SourceDir && forall p {:trigger InSourceDir(tree, p)} :: p in tree ==> InSourceDir(tree, p)
  }

  predicate InSourceDir(tree: Tree, p: Path) {
    p != [] ==> IsName(p[|p| - 1]) && Parent(p) in tree && tree[Parent(p)] == SourceDir
  }

  /** filepath.Walk: every entry once, each directory before what is in it. */
  ghost predicate WalkOrder(tree: Tree, order: seq<Path>) {
    (forall p :: p in order <==> p in tree) &&
    (forall i, j :: 0 <= i < j < |order| ==> order[i] != order[j]) &&
    forall i :: 0 <= i < |order| && order[i] != [] ==> Parent(order[i]) in order[..i]
  }

  /** Whether the entry comes back when unpacked. */
  predicate Kept(s: Source) { s.SourceDir? || s.SourceFile? }

  function RelName(p: Path): string {
    if p == [] then "." else Join(p, '/')
  }

  function MemberOf(p: Path, s: Source): Member {
    match s
    case SourceDir => Member(SitePrefix() + RelName(p) + "/", DirMember, [], None)
    case SourceFile(data) => Member(SitePrefix() + RelName(p), RegularMember, data, None)
    case _ => Member(SitePrefix() + RelName(p), OtherMember, [], None)
  }

  function SiteMembers(tree: Tree, order: seq<Path>): seq<Member>
    requires forall p :: p in order ==> p in tree
  {
    if order == [] then []
    else [MemberOf(order[0], tree[order[0]])] + SiteMembers(tree, order[1..])
  }

  function ManifestMember(data: Bytes): Member {
    Member(ManifestName(), RegularMember, data, None)
  }

  function DumpMembers(dump: Option<Bytes>): seq<Member> {
    if dump.None? then [] else [Member(DBEntryName(), RegularMember, dump.value, None)]
  }

  function Packed(codec: Codec, meta: Meta, tree: Tree, order: seq<Path>, dump: Option<Bytes>): seq<Member>
    requires forall p :: p in order ==> p in tree
  {
    [ManifestMember(codec.encode(meta))] + SiteMembers(tree, order) + DumpMembers(dump)
  }

  /** The member that stands for an entry of the site. */
  predicate IsMemberOf(m: Member, p: Path, s: Source) {
    m.breaksAt.None? && m.name == "site/" + (if p == [] then "." else Join(p, '/')) + (if s.SourceDir? then "/" else "") &&
    (m.kind == DirMember <==> s.SourceDir?) && (m.kind == RegularMember <==> s.SourceFile?) &&
    m.data == if s.SourceFile? then s.data else []
  }

  lemma {:induction false} SiteMembersAre(tree: Tree, order: seq<Path>)
    requires forall p :: p in order ==> p in tree
    ensures |SiteMembers(tree, order)| == |order|
    ensures forall i :: 0 <= i < |order| ==> IsMemberOf(SiteMembers(tree, order)[i], order[i], tree[order[i]])
  {
    if order != [] {
      SiteMembersAre(tree, order[1..]);
    }
  }

  /** The manifest, a member for each entry in order, and the dump if there is one. */
  ghost predicate IsArchiveOf(members: seq<Member>, codec: Codec, meta: Meta, tree: Tree, order: seq<Path>,
                              dump: Option<Bytes>)
    requires forall p :: p in order ==> p in tree
  {
    |members| == 1 + |order| + (if dump.Some? then 1 else 0) &&
    members[0] == Member("manifest.json", RegularMember, codec.encode(meta), None) &&
    (forall i :: 0 <= i < |order| ==> IsMemberOf(members[i + 1], order[i], tree[order[i]])) &&
    (dump.Some? ==> members[|order| + 1] == Member("database.sql", RegularMember, dump.value, None))
  }

  lemma PackedIsArchive(codec: Codec, meta: Meta, tree: Tree, order: seq<Path>, dump: Option<Bytes>)
    requires forall p :: p in order ==> p in tree
    ensures IsArchiveOf(Packed(codec, meta, tree, order, dump), codec, meta, tree, order, dump)
  {
    SiteMembersAre(tree, order);
    forall i | 0 <= i < |order|
      ensures Packed(codec, meta, tree, order, dump)[i + 1] == SiteMembers(tree, order)[i]
    {
    }
  }

  lemma {:induction false} SiteMembersSnoc(tree: Tree, order: seq<Path>, p: Path)
    requires p in tree && forall q :: q in order ==> q in tree
    ensures SiteMembers(tree, order + [p]) == SiteMembers(tree, order) + [MemberOf(p, tree[p])]
  {
    if order == [] {
      assert [p][1..] == [];
    } else {
      assert (order + [p])[1..] == order[1..] + [p];
      SiteMembersSnoc(tree, order[1..], p);
    }
  }

  /** pack: refused exactly when the site holds a socket, which an archive cannot record. */
  method Pack(codec: Codec, meta: Meta, tree: Tree, order: seq<Path>, dump: Option<Bytes>)
    returns (archive: Option<seq<Member>>)
    requires forall p :: p in order ==> p in tree
    ensures archive.None? <==> exists i :: 0 <= i < |order| && tree[order[i]].SourceSocket?
    ensures archive.Some? ==> archive.value == Packed(codec, meta, tree, order, dump)
    ensures archive.Some? ==> IsArchiveOf(archive.value, codec, meta, tree, order, dump)
  {
    var out := [ManifestMember(codec.encode(meta))];
    ghost var head := out;
    for i := 0 to |order|
      invariant out == head + SiteMembers(tree, order[..i])
      invariant forall k :: 0 <= k < i ==> !tree[order[k]].SourceSocket?
    {
      if tree[order[i]].SourceSocket? {
        return None;
      }
      assert order[..i + 1] == order[..i] + [order[i]];
      SiteMembersSnoc(tree, order[..i], order[i]);
      ConcatAssoc(head, SiteMembers(tree, order[..i]), [MemberOf(order[i], tree[order[i]])]);
      out := out + [MemberOf(order[i], tree[order[i]])];
    }
    assert order[..|order|] == order;
    PackedIsArchive(codec, meta, tree, order, dump);
    if dump.Some? {
      out := out + [Member(DBEntryName(), RegularMember, dump.value, None)];
    }
    return Some(out);
  }

  datatype ManifestResult = Found(meta: Meta) | NoManifest | BadManifest | Unreadable

  /** readManifest. The decoder is given what arrives of the member. */
  method ReadManifest(codec: Codec, archive: Archive) returns (r: ManifestResult)
    ensures r == ManifestOf(codec, archive.members, archive.torn)
  {
    var members := archive.members;
    for i := 0 to |members|
      invariant ManifestOf(codec, members, archive.torn) == ManifestOf(codec, members[i..], archive.torn)
    {
      if members[i].name == ManifestName() {
        var meta := codec.decode(Arrived(members[i]));
        return if meta.Some? then Found(meta.value) else BadManifest;
      }
      if Broken(members[i]) {
        return Unreadable;
      }
      assert members[i..][1..] == members[i + 1..];
    }
    return if archive.torn then Unreadable else NoManifest;
  }

  function ManifestOf(codec: Codec, members: seq<Member>, torn: bool): ManifestResult {
    if members == [] then if torn then Unreadable else NoManifest
    else if members[0].name == ManifestName() then
      var meta := codec.decode(Arrived(members[0]));
      if meta.Some? then Found(meta.value) else BadManifest
    else if Broken(members[0]) then Unreadable
    else ManifestOf(codec, members[1..], torn)
  }

  /** Member i is the first that is the manifest or breaks off. */
  predicate SettlesManifest(members: seq<Member>, i: nat) {
    i < |members| && (members[i].name == "manifest.json" || Broken(members[i])) &&
    forall j :: 0 <= j < i ==> members[j].name != "manifest.json" && !Broken(members[j])
  }

  /** readManifest decodes what arrives of the first member of that name, unless the archive breaks off before. */
  lemma {:induction false} ManifestIsFirst(codec: Codec, members: seq<Member>, torn: bool)
    ensures forall i: nat :: SettlesManifest(members, i) ==>
                               ManifestOf(codec, members, torn) ==
                               if members[i].name != "manifest.json" then Unreadable
                               else match codec.decode(Arrived(members[i]))
                                 case Some(meta) => Found(meta)
                                 case None => BadManifest
    ensures (forall i: nat :: !SettlesManifest(members, i)) ==>
              ManifestOf(codec, members, torn) == if torn then Unreadable else NoManifest
  {
    if members != [] {
      var rest := members[1..];
      if members[0].name == "manifest.json" || Broken(members[0]) {
        assert SettlesManifest(members, 0);
        forall i: nat | SettlesManifest(members, i)
          ensures i == 0
        {
        }
      } else {
        ManifestIsFirst(codec, rest, torn);
        forall i: nat
          ensures SettlesManifest(members, i) <==> i > 0 && SettlesManifest(rest, i - 1)
        {
          SettlesLater(members, i);
        }
        if forall i: nat :: !SettlesManifest(members, i) {
          forall i: nat
            ensures !SettlesManifest(rest, i)
          {
            assert !SettlesManifest(members, i + 1);
          }
        }
      }
    }
  }

  lemma SettlesLater(members: seq<Member>, i: nat)
    requires members != [] && members[0].name != "manifest.json" && !Broken(members[0])
    ensures SettlesManifest(members, i) <==> i > 0 && SettlesManifest(members[1..], i - 1)
  {
    if i > 0 && SettlesManifest(members[1..], i - 1) {
      forall j | 0 <= j < i
        ensures members[j].name != "manifest.json" && !Broken(members[j])
      {
        assert j > 0 ==> members[j] == members[1..][j - 1];
      }
    }
  }

  // ---------- Unpacking ----------

  datatype Error = TooLarge | UnsafeEntry | IOError

  /** The target while an archive is unpacked: the directory tree, what its files hold, the dump file, the
      members met, the bytes that may still be written and those that were. */
  datatype Target = Target(fs: FileSystem, bytes: map<Path, Bytes>, dump: Option<Bytes>, hasDB: bool,
                           entries: nat, budget: int, written: nat)

  ghost predicate ValidTarget(t: Target) {
    ValidFileSystem(t.fs) && t.budget >= 0 && forall p :: p in t.bytes <==> p in t.fs && t.fs[p] == File
  }

  /** io.Copy from a reader limited to budget+1 bytes: the bytes that arrive. */
  function Copied(m: Member, budget: int): Bytes
    requires budget >= 0
  {
    if |Arrived(m)| <= budget + 1 then Arrived(m) else Arrived(m)[..budget + 1]
  }

  predicate BreaksOff(m: Member, budget: int) {
    Broken(m) && |Arrived(m)| < budget + 1
  }

  /** What is left of writeRegularTo once the file is open. */
  function Charge(t: Target, m: Member): (Target, Option<Error>)
    requires t.budget >= 0
  {
    var n := |Copied(m, t.budget)|;
    var t1 := t.(written := t.written + n);
    if BreaksOff(m, t.budget) then (t1, Some(IOError))
    else if n > t.budget then (t1, Some(TooLarge))
    else (t1.(budget := t.budget - n), None)
  }

  function WriteDump(t: Target, m: Member): (Target, Option<Error>)
    requires t.budget >= 0
  {
    var (t1, e) := Charge(t.(dump := Some(Copied(m, t.budget))), m);
    (if e.None? then t1.(hasDB := true) else t1, e)
  }

  function WriteFile(t: Target, dest: Path, m: Member): (Target, Option<Error>)
    requires ValidTarget(t) && IsPath(dest)
  {
    var made := MkdirAll(t.fs, Parent(dest));
    var t1 := t.(fs := made.fs);
    if !made.ok then (t1, Some(IOError))
    else match Open(made.fs, dest)
      case None => (t1, Some(IOError))
      case Some(at) =>
        if at in made.fs && made.fs[at] == Dir then (t1, Some(IOError))
        else Charge(Written(t1, at, Copied(m, t.budget)), m)
  }

  function Written(t: Target, at: Path, data: Bytes): Target {
    t.(fs := t.fs[at := File], bytes := t.bytes[at := data])
  }

  function Extract(t: Target, dest: Path, m: Member): (Target, Option<Error>)
    requires ValidTarget(t) && IsPath(dest)
  {
    match m.kind
    case DirMember =>
      var made := MkdirAll(t.fs, dest);
      (t.(fs := made.fs), if made.ok then None else Some(IOError))
    case RegularMember => WriteFile(t, dest, m)
    case OtherMember => (t, None)
  }

  predicate IsSiteName(name: string) {
    |name| > |SitePrefix()| && HasPrefix(name, SitePrefix())
  }

  function SiteRel(name: string): string
    requires IsSiteName(name)
  {
    name[|SitePrefix()|..]
  }

  /** A member of the site: to its place below root. */
  function ExtractSite(t: Target, m: Member, root: Path): (Target, Option<Error>)
    requires ValidTarget(t) && IsPath(root) && IsSiteName(m.name)
  {
    match SafeJoin(t.fs, KERNEL_LINKS, root, SiteRel(m.name))
    case Ok(dest) =>
      CandidateIsPath(root, SiteRel(m.name));
      Extract(t, dest, m)
    case _ => (t, Some(UnsafeEntry))
  }

  /** One turn of the loop of unpack. */
  function UnpackMember(t0: Target, m: Member, root: Path, wantDump: bool): (Target, Option<Error>)
    requires ValidTarget(t0) && IsPath(root)
  {
    var t := t0.(entries := t0.entries + 1);
    if t.entries > MAX_UNPACK_ENTRIES then (t, Some(TooLarge))
    else if m.name == ManifestName() then (t, None)
    else if m.name == DBEntryName() then if wantDump then WriteDump(t, m) else (t, None)
    else if IsSiteName(m.name) then ExtractSite(t, m, root)
    else if SafeJoin(t.fs, KERNEL_LINKS, root, m.name).Ok? then (t, None)
    else (t, Some(UnsafeEntry))
  }

  /** The path that is checked for a member which is neither the manifest nor the dump. */
  function CheckedPath(name: string): string {
    if |name| > 5 && name[..5] == "site/" then name[5..] else name
  }

  /** A member is called unsafe if and only if SafeJoin refuses its path; outside of the site it is then passed over. */
  lemma UnsafeEntryIff(t: Target, m: Member, root: Path, wantDump: bool)
    requires ValidTarget(t) && IsPath(root) && t.entries < MAX_UNPACK_ENTRIES
    ensures UnpackMember(t, m, root, wantDump).1 == Some(UnsafeEntry) <==>
            m.name != "manifest.json" && m.name != "database.sql" &&
            !SafeJoin(t.fs, KERNEL_LINKS, root, CheckedPath(m.name)).Ok?
    ensures m.name != "database.sql" && CheckedPath(m.name) == m.name ==>
              UnpackMember(t, m, root, wantDump).0 == t.(entries := t.entries + 1)
  {
    assert |SitePrefix()| == 5;
    if IsSiteName(m.name) {
      CandidateIsPath(root, SiteRel(m.name));
      assert m.name[0] == SitePrefix()[0] == 's';
    }
  }

  // ---------- What every member keeps, in any file system ----------

  /** Still a valid target; nothing that was there has gone or changed its kind. */
  ghost predicate Grown(before: Target, after: Target) {
    ValidTarget(after) && Extends(before.fs, after.fs)
  }

  lemma MkdirGrows(t: Target, p: Path)
    requires ValidTarget(t) && IsPath(p)
    ensures Grown(t, t.(fs := MkdirAll(t.fs, p).fs))
  {
  }

  lemma WrittenGrows(t: Target, at: Path, data: Bytes)
    requires ValidTarget(t) && (at in t.fs ==> t.fs[at] == File)
    requires at !in t.fs ==> at != [] && IsName(at[|at| - 1]) && Parent(at) in t.fs && t.fs[Parent(at)] == Dir
    ensures Grown(t, Written(t, at, data))
  {
    if at in t.fs {
      assert t.fs[at := File] == t.fs;
    } else {
      AddEntry(t.fs, at, File);
    }
  }

  lemma ChargeKeeps(t: Target, m: Member)
    requires ValidTarget(t)
    ensures ValidTarget(Charge(t, m).0) && Charge(t, m).0.fs == t.fs && Charge(t, m).0.bytes == t.bytes
  {
  }

  lemma WriteFileGrows(t: Target, dest: Path, m: Member)
    requires ValidTarget(t) && IsPath(dest)
    ensures Grown(t, WriteFile(t, dest, m).0)
  {
    var made := MkdirAll(t.fs, Parent(dest));
    var t1 := t.(fs := made.fs);
    MkdirGrows(t, Parent(dest));
    if made.ok {
      var at := Open(made.fs, dest);
      if at.Some? && !(at.value in made.fs && made.fs[at.value] == Dir) {
        WrittenGrows(t1, at.value, Copied(m, t.budget));
        ChargeKeeps(Written(t1, at.value, Copied(m, t.budget)), m);
      }
    }
  }

  lemma ExtractGrows(t: Target, dest: Path, m: Member)
    requires ValidTarget(t) && IsPath(dest)
    ensures Grown(t, Extract(t, dest, m).0)
  {
    if m.kind.DirMember? {
      MkdirGrows(t, dest);
    } else if m.kind.RegularMember? {
      WriteFileGrows(t, dest, m);
    }
  }

  lemma MemberGrows(t: Target, m: Member, root: Path, wantDump: bool)
    requires ValidTarget(t) && IsPath(root)
    ensures Grown(t, UnpackMember(t, m, root, wantDump).0)
  {
    var t1 := t.(entries := t.entries + 1);
    if IsSiteName(m.name) {
      CandidateIsPath(root, SiteRel(m.name));
      ExtractGrows(t1, Candidate(root, SiteRel(m.name)), m);
    }
  }

  // ---------- The counters ----------

  /** How many bytes of the member are restored. */
  function Restored(m: Member, wantDump: bool): nat {
    if m.name == ManifestName() then 0
    else if m.name == DBEntryName() then if wantDump then |m.data| else 0
    else if IsSiteName(m.name) && m.kind.RegularMember? then |m.data|
    else 0
  }

  function TotalRestored(members: seq<Member>, wantDump: bool): nat {
    if members == [] then 0 else Restored(members[0], wantDump) + TotalRestored(members[1..], wantDump)
  }

  /** What a step may do to the counters when it restores n bytes. */
  ghost predicate Counts(t: Target, r: (Target, Option<Error>), n: nat) {
    r.0.entries == t.entries &&
    (r.1.None? ==> r.0.written == t.written + n && r.0.budget == t.budget - n) &&
    (r.1.Some? ==> r.0.written <= t.written + t.budget + 1 && r.0.budget == t.budget)
  }

  lemma ChargeCounts(t: Target, m: Member)
    requires t.budget >= 0
    ensures Counts(t, Charge(t, m), |m.data|)
  {
  }

  lemma WriteFileCounts(t: Target, dest: Path, m: Member)
    requires ValidTarget(t) && IsPath(dest)
    ensures Counts(t, WriteFile(t, dest, m), |m.data|)
  {
    var made := MkdirAll(t.fs, Parent(dest));
    if made.ok {
      var at := Open(made.fs, dest);
      if at.Some? {
        ChargeCounts(Written(t.(fs := made.fs), at.value, Copied(m, t.budget)), m);
      }
    }
  }

  lemma SiteCounts(t: Target, m: Member, root: Path)
    requires ValidTarget(t) && IsPath(root) && IsSiteName(m.name)
    ensures Counts(t, ExtractSite(t, m, root), if m.kind.RegularMember? then |m.data| else 0)
  {
    CandidateIsPath(root, SiteRel(m.name));
    WriteFileCounts(t, Candidate(root, SiteRel(m.name)), m);
  }

  lemma MemberCounts(t: Target, m: Member, root: Path, wantDump: bool)
    requires ValidTarget(t) && IsPath(root)
    ensures Counts(t.(entries := t.entries + 1), UnpackMember(t, m, root, wantDump), Restored(m, wantDump))
    ensures UnpackMember(t, m, root, wantDump).1.None? ==> t.entries + 1 <= MAX_UNPACK_ENTRIES
  {
    var t1 := t.(entries := t.entries + 1);
    if m.name == DBEntryName() {
      ChargeCounts(t1.(dump := Some(Copied(m, t1.budget))), m);
    } else if IsSiteName(m.name) {
      SiteCounts(t1, m, root);
    }
  }

  // ---------- Whole archives ----------

  /** The loop of unpack. What is left of a member that breaks off makes the next turn fail. */
  function UnpackFrom(t: Target, members: seq<Member>, torn: bool, root: Path, wantDump: bool): (Target, Option<Error>)
    requires ValidTarget(t) && IsPath(root)
    decreases |members|
  {
    if members == [] then (t, if torn then Some(IOError) else None)
    else
      var (t1, e) := UnpackMember(t, members[0], root, wantDump);
      MemberGrows(t, members[0], root, wantDump);
      if e.Some? then (t1, e)
      else if Broken(members[0]) then (t1, Some(IOError))
      else UnpackFrom(t1, members[1..], torn, root, wantDump)
  }

  /** For any archive and any file system: the bytes written never pass the budget by more than one; on success
      they are exactly the bytes of the members restored, and within the budget. */
  lemma {:induction false} UnpackCounts(t: Target, members: seq<Member>, torn: bool, root: Path, wantDump: bool)
    requires ValidTarget(t) && IsPath(root)
    ensures var (t1, e) := UnpackFrom(t, members, torn, root, wantDump);
            Grown(t, t1) &&
            (e.None? ==> t1.entries == t.entries + |members| &&
                         (members != [] ==> t1.entries <= MAX_UNPACK_ENTRIES) &&
                         t1.written == t.written + TotalRestored(members, wantDump) &&
                         t1.budget == t.budget - TotalRestored(members, wantDump)) &&
            (e.Some? ==> t1.written <= t.written + t.budget + 1)
    decreases |members|
  {
    if members != [] {
      MemberGrows(t, members[0], root, wantDump);
      MemberCounts(t, members[0], root, wantDump);
      var (t1, e) := UnpackMember(t, members[0], root, wantDump);
      if e.None? && !Broken(members[0]) {
        UnpackCounts(t1, members[1..], torn, root, wantDump);
      }
    }
  }

  function Fresh(fs: FileSystem, bytes: map<Path, Bytes>, oldDump: Option<Bytes>): Target {
    Target(fs, bytes, oldDump, false, 0, MAX_UNPACK_BYTES, 0)
  }

  /** unpack: the destination is made first. */
  function Unpack(fs: FileSystem, bytes: map<Path, Bytes>, oldDump: Option<Bytes>, archive: Archive, root: Path,
                  wantDump: bool): (Target, Option<Error>)
    requires ValidTarget(Fresh(fs, bytes, oldDump)) && IsPath(root)
  {
    var made := MkdirAll(fs, root);
    MkdirGrows(Fresh(fs, bytes, oldDump), root);
    if !made.ok then (Fresh(made.fs, bytes, oldDump), Some(IOError))
    else UnpackFrom(Fresh(made.fs, bytes, oldDump), archive.members, archive.torn, root, wantDump)
  }

  /** Main theorem, for any archive, any file system and any destination: at most one byte more than the limit is
      ever written, and on success exactly the bytes of the members restored, which are within the limit, as
      their number is. */
  lemma UnpackIsBounded(fs: FileSystem, bytes: map<Path, Bytes>, oldDump: Option<Bytes>, archive: Archive,
                        root: Path, wantDump: bool)
    requires ValidTarget(Fresh(fs, bytes, oldDump)) && IsPath(root)
    ensures var (t, e) := Unpack(fs, bytes, oldDump, archive, root, wantDump);
            t.written <= 8 * 1024 * 1024 * 1024 + 1 &&
            (e.None? ==> t.written == TotalRestored(archive.members, wantDump) <= 8 * 1024 * 1024 * 1024 &&
                         |archive.members| <= 200_000)
  {
    var made := MkdirAll(fs, root);
    MkdirGrows(Fresh(fs, bytes, oldDump), root);
    if made.ok {
      var t := Fresh(made.fs, bytes, oldDump);
      UnpackCounts(t, archive.members, archive.torn, root, wantDump);
      var (t1, e) := UnpackFrom(t, archive.members, archive.torn, root, wantDump);
      assert t.written + t.budget == MAX_UNPACK_BYTES;
      assert t1.written <= MAX_UNPACK_BYTES + 1;
    }
  }

  // ---------- Nothing happens outside of the destination ----------

  predicate Unchanged(before: Target, after: Target, q: Path) {
    (q in after.fs <==> q in before.fs) && (q in before.fs ==> after.fs[q] == before.fs[q]) &&
    (q in after.bytes <==> q in before.bytes) && (q in before.bytes ==> after.bytes[q] == before.bytes[q])
  }

  ghost predicate SameOutside(before: Target, after: Target, root: Path) {
    forall q {:trigger Unchanged(before, after, q)} :: !(root <= q) ==> Unchanged(before, after, q)
  }

  lemma SameOutsideTrans(a: Target, b: Target, c: Target, root: Path)
    requires SameOutside(a, b, root) && SameOutside(b, c, root)
    ensures SameOutside(a, c, root)
  {
    forall q | !(root <= q)
      ensures Unchanged(a, c, q)
    {
      assert Unchanged(a, b, q) && Unchanged(b, c, q);
    }
  }

  /** The name of the destination leads to a directory, through links or not. */
  ghost predicate Stands(fs: FileSystem, root: Path) {
    ValidFileSystem(fs) && Stat(fs, root).At? && fs[Stat(fs, root).path] == Dir
  }

  lemma StillStands(fs: FileSystem, more: FileSystem, root: Path)
    requires Stands(fs, root) && ValidFileSystem(more) && Extends(fs, more)
    ensures Stands(more, root)
  {
    WalkInLarger(fs, more, [], root, KERNEL_LINKS);
  }

  lemma AddedInside(t: Target, more: FileSystem, root: Path)
    requires Extends(t.fs, more) && AddsInside(t.fs, more, root)
    ensures SameOutside(t, t.(fs := more), root)
  {
  }

  lemma WrittenInside(t: Target, at: Path, data: Bytes, root: Path)
    requires root <= at
    ensures SameOutside(t, Written(t, at, data), root)
  {
  }

  lemma WriteFileInside(t: Target, root: Path, dest: Path, m: Member)
    requires ValidTarget(t) && Resolved(t.fs, root, dest) && dest != []
    requires forall e: Path :: Entry(t.fs, KERNEL_LINKS, dest) == Some(e) ==> root <= e && (e in t.fs ==> !t.fs[e].Link?)
    ensures SameOutside(t, WriteFile(t, dest, m).0, root)
  {
    var made := MkdirAll(t.fs, Parent(dest));
    var t1 := t.(fs := made.fs);
    FileInside(t.fs, root, dest);
    MkdirGrows(t, Parent(dest));
    AddedInside(t, made.fs, root);
    if made.ok {
      var at := Open(made.fs, dest).value;
      if !(at in made.fs && made.fs[at] == Dir) {
        var t2 := Written(t1, at, Copied(m, t.budget));
        WrittenInside(t1, at, Copied(m, t.budget), root);
        SameOutsideTrans(t, t1, t2, root);
        assert SameOutside(t2, Charge(t2, m).0, root);
        SameOutsideTrans(t, t2, Charge(t2, m).0, root);
      }
    }
  }

  lemma ExtractInside(t: Target, root: Path, dest: Path, m: Member)
    requires ValidTarget(t) && Resolved(t.fs, root, dest) && dest != []
    requires forall e: Path :: Entry(t.fs, KERNEL_LINKS, dest) == Some(e) ==> root <= e && (e in t.fs ==> !t.fs[e].Link?)
    ensures SameOutside(t, Extract(t, dest, m).0, root)
  {
    if m.kind.DirMember? {
      MkdirAllInside(t.fs, root, dest);
      MkdirGrows(t, dest);
      AddedInside(t, MkdirAll(t.fs, dest).fs, root);
    } else if m.kind.RegularMember? {
      WriteFileInside(t, root, dest, m);
    }
  }

  /** A site member changes nothing outside of root: SafeJoin lets pass only what is below a real root, and judges
      each member on the file system as it then is. */
  lemma SiteMemberInside(t: Target, m: Member, root: Path)
    requires ValidTarget(t) && IsPath(root) && Stands(t.fs, root) && IsSiteName(m.name)
    ensures SameOutside(t, ExtractSite(t, m, root).0, root)
  {
    var rel := SiteRel(m.name);
    if root != [] && SafeJoin(t.fs, KERNEL_LINKS, root, rel).Ok? {
      SafeJoinNeedsRealRoot(t.fs, root, rel);
      StatReal(t.fs, root);
      SafeJoinResolves(t.fs, root, rel);
      ExtractInside(t, root, Candidate(root, rel), m);
    }
  }

  lemma MemberInside(t: Target, m: Member, root: Path, wantDump: bool)
    requires ValidTarget(t) && IsPath(root) && Stands(t.fs, root)
    ensures SameOutside(t, UnpackMember(t, m, root, wantDump).0, root)
  {
    var t1 := t.(entries := t.entries + 1);
    if IsSiteName(m.name) {
      SiteMemberInside(t1, m, root);
      SameOutsideTrans(t, t1, ExtractSite(t1, m, root).0, root);
    }
  }

  lemma {:induction false} UnpackInside(t: Target, members: seq<Member>, torn: bool, root: Path, wantDump: bool)
    requires ValidTarget(t) && IsPath(root) && Stands(t.fs, root)
    ensures SameOutside(t, UnpackFrom(t, members, torn, root, wantDump).0, root)
    decreases |members|
  {
    if members != [] {
      var (t1, e) := UnpackMember(t, members[0], root, wantDump);
      MemberGrows(t, members[0], root, wantDump);
      MemberInside(t, members[0], root, wantDump);
      if e.None? && !Broken(members[0]) {
        StillStands(t.fs, t1.fs, root);
        UnpackInside(t1, members[1..], torn, root, wantDump);
        SameOutsideTrans(t, t1, UnpackFrom(t1, members[1..], torn, root, wantDump).0, root);
      }
    }
  }

  /** Main theorem, for any archive, any file system with any links, and any destination: outside of the destination
      no file is written and nothing is made, but for the directories that making the destination itself
      makes; without a link on its way these are above it. */
  lemma UnpackStaysInside(fs: FileSystem, bytes: map<Path, Bytes>, oldDump: Option<Bytes>, archive: Archive,
                          root: Path, wantDump: bool, q: Path)
    requires ValidTarget(Fresh(fs, bytes, oldDump)) && IsPath(root) && !(root <= q)
    ensures var made := MkdirAll(fs, root).fs;
            var t := Unpack(fs, bytes, oldDump, archive, root, wantDump).0;
            (q in bytes <==> q in t.bytes) && (q in bytes ==> t.bytes[q] == bytes[q]) &&
            (q in t.fs <==> q in made) && (q in fs ==> q in t.fs && t.fs[q] == fs[q]) &&
            (q in t.fs && q !in fs ==> t.fs[q] == Dir && (Unlinked(fs, root) ==> q <= root))
  {
    var made := MkdirAll(fs, root);
    var t := Fresh(made.fs, bytes, oldDump);
    MkdirGrows(Fresh(fs, bytes, oldDump), root);
    if Unlinked(fs, root) {
      MkdirAllReal(fs, root);
    }
    if made.ok {
      var d, names := MkdirAllOutcome(fs, root);
      UnpackInside(t, archive.members, archive.torn, root, wantDump);
      assert Unchanged(t, UnpackFrom(t, archive.members, archive.torn, root, wantDump).0, q);
    }
  }

  // ---------- The target as the program has it ----------

  class Host {
    var fs: FileSystem
    var bytes: map<Path, Bytes>
    var dump: Option<Bytes>
    var written: nat

    constructor (fs: FileSystem, bytes: map<Path, Bytes>, dump: Option<Bytes>)
      ensures this.fs == fs && this.bytes == bytes && this.dump == dump && written == 0
    {
      this.fs, this.bytes, this.dump, written := fs, bytes, dump, 0;
    }

    /** The whole target, with the variables of unpack. */
    ghost function View(hasDB: bool, entries: nat, budget: int): Target
      reads this
    {
      Target(fs, bytes, dump, hasDB, entries, budget, written)
    }

    /** The end of writeRegularTo: io.Copy, the test of the budget, and the charge. */
    method CopyAndCharge(m: Member, budget: int, ghost hasDB: bool, ghost entries: nat)
      returns (left: int, e: Option<Error>)
      requires budget >= 0
      modifies this`written
      ensures (View(hasDB, entries, left), e) == Charge(old(View(hasDB, entries, budget)), m)
      ensures e.None? <==> !Broken(m) && |m.data| <= budget
      ensures e == Some(TooLarge) <==> |Arrived(m)| > budget
      ensures left == if e.None? then budget - |m.data| else budget
    {
      var n := |Copied(m, budget)|;
      written := written + n;
      if BreaksOff(m, budget) {
        return budget, Some(IOError);
      }
      if n > budget {
        return budget, Some(TooLarge);
      }
      return budget - n, None;
    }

    /** writeRegularTo, for a file of the site. */
    method WriteRegularTo(dest: Path, m: Member, budget: int, ghost hasDB: bool, ghost entries: nat)
      returns (left: int, e: Option<Error>)
      requires ValidTarget(View(hasDB, entries, budget)) && IsPath(dest)
      modifies this
      ensures (View(hasDB, entries, left), e) == WriteFile(old(View(hasDB, entries, budget)), dest, m)
    {
      var made := MkdirAll(fs, Parent(dest));
      fs := made.fs;
      if !made.ok {
        return budget, Some(IOError);
      }
      var at := Open(fs, dest);
      if at.None? || (at.value in fs && fs[at.value] == Dir) {
        return budget, Some(IOError);
      }
      fs, bytes := fs[at.value := File], bytes[at.value := Copied(m, budget)];
      left, e := CopyAndCharge(m, budget, hasDB, entries);
    }

    method ExtractMember(dest: Path, m: Member, budget: int, ghost hasDB: bool, ghost entries: nat)
      returns (left: int, e: Option<Error>)
      requires ValidTarget(View(hasDB, entries, budget)) && IsPath(dest)
      modifies this
      ensures (View(hasDB, entries, left), e) == Extract(old(View(hasDB, entries, budget)), dest, m)
    {
      match m.kind
      case DirMember =>
        var made := MkdirAll(fs, dest);
        fs := made.fs;
        return budget, if made.ok then None else Some(IOError);
      case RegularMember => left, e := WriteRegularTo(dest, m, budget, hasDB, entries);
      case OtherMember => return budget, None;
    }

    /** The body of the loop of unpack, once the member is counted. */
    method Restore(m: Member, root: Path, wantDump: bool, hasDB: bool, budget: int, entries: nat)
      returns (hasDB': bool, left: int, e: Option<Error>)
      requires ValidTarget(View(hasDB, entries, budget)) && IsPath(root) && entries < MAX_UNPACK_ENTRIES
      modifies this
      ensures (View(hasDB', entries + 1, left), e) == UnpackMember(old(View(hasDB, entries, budget)), m, root, wantDump)
    {
      hasDB', left, e := hasDB, budget, None;
      if m.name == ManifestName() {
        return;
      }
      if m.name == DBEntryName() {
        if wantDump {
          dump := Some(Copied(m, budget));
          left, e := CopyAndCharge(m, budget, hasDB, entries + 1);
          if e.None? { hasDB' := true; }
        }
        return;
      }
      if IsSiteName(m.name) {
        var joined := SafeJoin(fs, KERNEL_LINKS, root, SiteRel(m.name));
        if !joined.Ok? {
          e := Some(UnsafeEntry);
          return;
        }
        CandidateIsPath(root, SiteRel(m.name));
        left, e := ExtractMember(joined.value, m, budget, hasDB, entries + 1);
        return;
      }
      if !SafeJoin(fs, KERNEL_LINKS, root, m.name).Ok? {
        e := Some(UnsafeEntry);
      }
    }

    /** unpack. */
    method UnpackArchive(archive: Archive, root: Path, wantDump: bool)
      returns (hasDB: bool, e: Option<Error>)
      requires ValidTarget(Fresh(fs, bytes, dump)) && IsPath(root) && written == 0
      modifies this
      ensures var (t, error) := Unpack(old(fs), old(bytes), old(dump), archive, root, wantDump);
              (fs, bytes, dump, written) == (t.fs, t.bytes, t.dump, t.written) && hasDB == t.hasDB && e == error
    {
      hasDB, e := false, None;
      var made := MkdirAll(fs, root);
      MkdirGrows(Fresh(fs, bytes, dump), root);
      fs := made.fs;
      if !made.ok {
        return false, Some(IOError);
      }
      hasDB, e := RestoreAll(archive, root, wantDump);
    }

    /** Its loop. */
    method RestoreAll(archive: Archive, root: Path, wantDump: bool)
      returns (hasDB: bool, e: Option<Error>)
      requires ValidTarget(Fresh(fs, bytes, dump)) && IsPath(root) && written == 0
      modifies this
      ensures var (t, error) := UnpackFrom(old(Fresh(fs, bytes, dump)), archive.members, archive.torn, root, wantDump);
              (fs, bytes, dump, written) == (t.fs, t.bytes, t.dump, t.written) && hasDB == t.hasDB && e == error
    {
      hasDB, e := false, None;
      var members := archive.members;
      var entries, budget := 0, MAX_UNPACK_BYTES;
      ghost var goal := UnpackFrom(View(hasDB, 0, budget), members, archive.torn, root, wantDump);
      for i := 0 to |members|
        invariant entries == i && ValidTarget(View(hasDB, entries, budget)) && e.None?
        invariant goal == UnpackFrom(View(hasDB, entries, budget), members[i..], archive.torn, root, wantDump)
      {
        assert members[i..][0] == members[i] && members[i..][1..] == members[i + 1..];
        MemberGrows(View(hasDB, entries, budget), members[i], root, wantDump);
        if entries + 1 > MAX_UNPACK_ENTRIES {
          return hasDB, Some(TooLarge);
        }
        hasDB, budget, e := Restore(members[i], root, wantDump, hasDB, budget, entries);
        entries := entries + 1;
        if e.Some? {
          return;
        }
        if Broken(members[i]) {
          return hasDB, Some(IOError);
        }
      }
      return hasDB, if archive.torn then Some(IOError) else None;
    }
  }
}

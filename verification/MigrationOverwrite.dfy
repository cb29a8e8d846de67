/** internal/modules/migration/backend.go: what unpacking leaves in the files of a destination that is already there,
    links and all: a file holds the last member that leads to it. */
module MigrationOverwrite {
  import opened Text
  import opened SafePath
  import opened Directories
  import opened Migration

  /** Where a file has been opened and written, there a walk along its name arrives. */
  lemma {:induction false} OpenedIsReached(fs: FileSystem, more: FileSystem, cur: Path, todo: seq<string>, links: nat)
    requires ValidFileSystem(fs) && ValidFileSystem(more) && Extends(fs, more)
    requires cur in fs && !fs[cur].Link? && Plain(todo)
    requires var at := OpenFrom(fs, cur, todo, links); at.Some? && at.value in more && !more[at.value].Link?
    ensures Walk(more, cur, todo, links).At?
    ensures Walk(more, cur, todo, links).path == OpenFrom(fs, cur, todo, links).value
    decreases links, |todo|
  {
    if todo != [] {
      if CanStep(fs, cur, todo, links) {
        var (c, t, l) := StepTo(fs, cur, todo, links);
        WalkStep(fs, cur, todo, links);
        WalkStep(more, cur, todo, links);
        StepPlain(fs, cur, todo, links);
        OpenedIsReached(fs, more, c, t, l);
      } else {
        assert todo[0] in todo;
        assert IsName(todo[0]);
        assert todo == [todo[0]];
        WalkOne(more, cur, todo[0], links);
      }
    }
  }

  /** A file of the site. */
  predicate IsSiteFile(m: Member) {
    IsSiteName(m.name) && m.kind == RegularMember
  }

  /** The path that its name stands for. */
  function PathOf(m: Member, root: Path): Path
    requires IsSiteFile(m)
  {
    Candidate(root, SiteRel(m.name))
  }

  /** Following that path leads to the entry q. */
  ghost predicate LeadsTo(fs: FileSystem, m: Member, root: Path, q: Path) {
    ValidFileSystem(fs) && IsSiteFile(m) && Stat(fs, PathOf(m, root)).At? && Stat(fs, PathOf(m, root)).path == q
  }

  /** Only the file at q changes: it gets this data. */
  ghost predicate Stores(t: Target, t1: Target, q: Path, data: Bytes) {
    t1.bytes == t.bytes[q := data] && q in t1.fs && t1.fs[q] == File
  }

  lemma ChargedInFull(t: Target, m: Member)
    requires t.budget >= 0 && Charge(t, m).1.None?
    ensures Copied(m, t.budget) == m.data && Charge(t, m).0.bytes == t.bytes && Charge(t, m).0.fs == t.fs
  {
  }

  lemma WriteStores(t: Target, dest: Path, m: Member) returns (q: Path)
    requires ValidTarget(t) && IsPath(dest) && WriteFile(t, dest, m).1.None?
    ensures var t1 := WriteFile(t, dest, m).0;
            ValidTarget(t1) && Stat(t1.fs, dest).At? && Stat(t1.fs, dest).path == q && Stores(t, t1, q, m.data)
  {
    var made := MkdirAll(t.fs, Parent(dest));
    q := Open(made.fs, dest).value;
    var t2 := Written(t.(fs := made.fs), q, Copied(m, t.budget));
    MkdirGrows(t, Parent(dest));
    WrittenGrows(t.(fs := made.fs), q, Copied(m, t.budget));
    ChargedInFull(t2, m);
    OpenedIsReached(made.fs, t2.fs, [], dest, KERNEL_LINKS);
  }

  lemma SiteNames(name: string)
    requires IsSiteName(name)
    ensures name != ManifestName() && name != DBEntryName()
  {
    assert name[0] == SitePrefix()[0] == 's';
  }

  lemma SiteStores(t: Target, m: Member, root: Path) returns (q: Path)
    requires ValidTarget(t) && IsPath(root) && IsSiteFile(m) && ExtractSite(t, m, root).1.None?
    ensures var t1 := ExtractSite(t, m, root).0; LeadsTo(t1.fs, m, root, q) && Stores(t, t1, q, m.data)
  {
    CandidateIsPath(root, SiteRel(m.name));
    q := WriteStores(t, PathOf(m, root), m);
  }

  lemma SiteTurn(t: Target, m: Member, root: Path, wantDump: bool)
    requires ValidTarget(t) && IsPath(root) && IsSiteName(m.name) && UnpackMember(t, m, root, wantDump).1.None?
    ensures UnpackMember(t, m, root, wantDump) == ExtractSite(t.(entries := t.entries + 1), m, root)
  {
    SiteNames(m.name);
  }

  lemma OtherTurn(t: Target, m: Member, root: Path, wantDump: bool)
    requires ValidTarget(t) && IsPath(root) && !IsSiteFile(m)
    ensures UnpackMember(t, m, root, wantDump).0.bytes == t.bytes
  {
  }

  /** A member that is restored stores all its data where its path then leads, whatever was there; no other member
      changes the contents of any file. */
  lemma MemberStores(t: Target, m: Member, root: Path, wantDump: bool) returns (q: Path)
    requires ValidTarget(t) && IsPath(root) && UnpackMember(t, m, root, wantDump).1.None?
    ensures var t1 := UnpackMember(t, m, root, wantDump).0;
            Grown(t, t1) &&
            if IsSiteFile(m) then LeadsTo(t1.fs, m, root, q) && Stores(t, t1, q, m.data) else t1.bytes == t.bytes
  {
    MemberGrows(t, m, root, wantDump);
    q := [];
    if IsSiteFile(m) {
      var t' := t.(entries := t.entries + 1);
      SiteTurn(t, m, root, wantDump);
      q := SiteStores(t', m, root);
      assert Stores(t', ExtractSite(t', m, root).0, q, m.data);
    } else {
      OtherTurn(t, m, root, wantDump);
    }
  }

  lemma {:induction false} UnpackGrows(t: Target, members: seq<Member>, torn: bool, root: Path, wantDump: bool)
    requires ValidTarget(t) && IsPath(root)
    ensures Grown(t, UnpackFrom(t, members, torn, root, wantDump).0)
  {
    UnpackCounts(t, members, torn, root, wantDump);
  }

  lemma StillLeadsTo(fs: FileSystem, more: FileSystem, m: Member, root: Path, q: Path)
    requires LeadsTo(fs, m, root, q) && ValidFileSystem(more) && Extends(fs, more)
    ensures LeadsTo(more, m, root, q)
  {
    WalkInLarger(fs, more, [], PathOf(m, root), KERNEL_LINKS);
  }

  /** Member i is the last of those that lead to q. */
  ghost predicate IsLast(fs: FileSystem, members: seq<Member>, root: Path, q: Path, i: nat) {
    i < |members| && LeadsTo(fs, members[i], root, q) &&
    forall j :: i < j < |members| ==> !LeadsTo(fs, members[j], root, q)
  }

  /** A file that no member leads to keeps its contents. */
  lemma {:induction false} OthersKeep(t: Target, members: seq<Member>, torn: bool, root: Path, wantDump: bool, q: Path)
    requires ValidTarget(t) && IsPath(root) && UnpackFrom(t, members, torn, root, wantDump).1.None?
    requires var end := UnpackFrom(t, members, torn, root, wantDump).0;
             forall j :: 0 <= j < |members| ==> !LeadsTo(end.fs, members[j], root, q)
    ensures var end := UnpackFrom(t, members, torn, root, wantDump).0;
            (q in end.bytes <==> q in t.bytes) && (q in t.bytes ==> end.bytes[q] == t.bytes[q])
    decreases |members|
  {
    if members != [] {
      var m := members[0];
      var t1 := UnpackMember(t, m, root, wantDump).0;
      var at := MemberStores(t, m, root, wantDump);
      UnpackGrows(t1, members[1..], torn, root, wantDump);
      var end := UnpackFrom(t1, members[1..], torn, root, wantDump).0;
      if IsSiteFile(m) {
        StillLeadsTo(t1.fs, end.fs, m, root, at);
        assert at != q;
      }
      forall j | 0 <= j < |members| - 1
        ensures !LeadsTo(end.fs, members[1..][j], root, q)
      {
        assert members[1..][j] == members[j + 1];
      }
      OthersKeep(t1, members[1..], torn, root, wantDump, q);
    }
  }

  lemma {:induction false} LastKeeps(t: Target, members: seq<Member>, torn: bool, root: Path, wantDump: bool, q: Path, i: nat)
    requires ValidTarget(t) && IsPath(root) && UnpackFrom(t, members, torn, root, wantDump).1.None?
    requires IsLast(UnpackFrom(t, members, torn, root, wantDump).0.fs, members, root, q, i)
    ensures var end := UnpackFrom(t, members, torn, root, wantDump).0;
            q in end.fs && end.fs[q] == File && q in end.bytes && end.bytes[q] == members[i].data
    decreases |members|
  {
    var m, rest := members[0], members[1..];
    var t1 := UnpackMember(t, m, root, wantDump).0;
    var at := MemberStores(t, m, root, wantDump);
    UnpackGrows(t1, rest, torn, root, wantDump);
    var end := UnpackFrom(t1, rest, torn, root, wantDump).0;
    forall j | 0 <= j < |rest|
      ensures rest[j] == members[j + 1]
    {
    }
    if i == 0 {
      StillLeadsTo(t1.fs, end.fs, m, root, at);
      OthersKeep(t1, rest, torn, root, wantDump, q);
    } else {
      LastKeeps(t1, rest, torn, root, wantDump, q, i - 1);
    }
  }

  /** Main theorem, for any archive, any destination and any links in it: after a successful unpack a file that members
      lead to holds exactly the data of the last of them, whatever it held before; every other file holds what it
      held, and none has been made. */
  lemma LastMemberWins(fs: FileSystem, bytes: map<Path, Bytes>, oldDump: Option<Bytes>, archive: Archive, root: Path,
                       wantDump: bool, q: Path)
    requires ValidTarget(Fresh(fs, bytes, oldDump)) && IsPath(root)
    requires Unpack(fs, bytes, oldDump, archive, root, wantDump).1.None?
    ensures var t := Unpack(fs, bytes, oldDump, archive, root, wantDump).0;
            (forall i: nat :: IsLast(t.fs, archive.members, root, q, i) ==>
                                q in t.bytes && t.bytes[q] == archive.members[i].data) &&
            ((forall i: nat :: !IsLast(t.fs, archive.members, root, q, i)) ==>
               (q in t.bytes <==> q in bytes) && (q in bytes ==> t.bytes[q] == bytes[q]))
  {
    var made := MkdirAll(fs, root).fs;
    MkdirGrows(Fresh(fs, bytes, oldDump), root);
    var t := Fresh(made, bytes, oldDump);
    var end := UnpackFrom(t, archive.members, archive.torn, root, wantDump).0;
    forall i: nat | IsLast(end.fs, archive.members, root, q, i)
      ensures q in end.bytes && end.bytes[q] == archive.members[i].data
    {
      LastKeeps(t, archive.members, archive.torn, root, wantDump, q, i);
    }
    if forall i: nat :: !IsLast(end.fs, archive.members, root, q, i) {
      NoneLeads(end.fs, archive.members, root, q, |archive.members|);
      OthersKeep(t, archive.members, archive.torn, root, wantDump, q);
    }
  }

  /** Without a last member that leads to q there is none at all. */
  lemma {:induction false} NoneLeads(fs: FileSystem, members: seq<Member>, root: Path, q: Path, n: nat)
    requires forall i: nat :: !IsLast(fs, members, root, q, i)
    requires n <= |members| && forall j :: n <= j < |members| ==> !LeadsTo(fs, members[j], root, q)
    ensures forall j :: 0 <= j < |members| ==> !LeadsTo(fs, members[j], root, q)
    decreases n
  {
    if n > 0 {
      assert !IsLast(fs, members, root, q, n - 1);
      NoneLeads(fs, members, root, q, n - 1);
    }
  }

  // ---------- The dump ----------

  /** The last member with the name of the dump. */
  function LastDump(members: seq<Member>): Option<Bytes> {
    if members == [] then None
    else if members[|members| - 1].name == DBEntryName() then Some(members[|members| - 1].data)
    else LastDump(members[..|members| - 1])
  }

  lemma MemberDump(t: Target, m: Member, root: Path, wantDump: bool)
    requires ValidTarget(t) && IsPath(root) && UnpackMember(t, m, root, wantDump).1.None?
    ensures var t1 := UnpackMember(t, m, root, wantDump).0;
            if m.name == DBEntryName() && wantDump then t1.dump == Some(m.data) && t1.hasDB
            else t1.dump == t.dump && t1.hasDB == t.hasDB
  {
    var t0 := t.(entries := t.entries + 1);
    if m.name == DBEntryName() {
      assert m.name != ManifestName();
      if wantDump {
        ChargedInFull(t0.(dump := Some(Copied(m, t0.budget))), m);
      }
    }
  }

  lemma {:induction false} LastDumpCons(members: seq<Member>)
    requires members != []
    ensures LastDump(members) ==
            if LastDump(members[1..]).Some? then LastDump(members[1..])
            else if members[0].name == DBEntryName() then Some(members[0].data) else None
    decreases |members|
  {
    var n := |members| - 1;
    if n > 0 {
      LastDumpCons(members[..n]);
      assert members[..n][1..] == members[1..][..n - 1];
    } else {
      assert members[..0] == [] && members[1..] == [];
    }
  }

  /** The dump is that of the last such member, if it is wanted and there is one. */
  lemma {:induction false} LastDumpWins(t: Target, members: seq<Member>, torn: bool, root: Path, wantDump: bool)
    requires ValidTarget(t) && IsPath(root) && UnpackFrom(t, members, torn, root, wantDump).1.None?
    ensures var end := UnpackFrom(t, members, torn, root, wantDump).0;
            if wantDump && LastDump(members).Some? then end.dump == LastDump(members) && end.hasDB
            else end.dump == t.dump && end.hasDB == t.hasDB
    decreases |members|
  {
    if members != [] {
      MemberDump(t, members[0], root, wantDump);
      MemberGrows(t, members[0], root, wantDump);
      LastDumpCons(members);
      LastDumpWins(UnpackMember(t, members[0], root, wantDump).0, members[1..], torn, root, wantDump);
    }
  }
}

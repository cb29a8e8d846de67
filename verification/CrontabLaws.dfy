/** What merging a managed block promises: own block replaced, everything else kept. */
module CrontabLaws {
  import opened Text
  import opened Crontab

  // ---------- Merging again with the same key ----------

  /** No line of the rendered body reads as the end marker of `key`. */
  predicate NeverCloses(key: string, jobs: seq<CronJobLine>) {
    forall l :: l in BodyLines(jobs) ==> Closes(l) != Keyed(key)
  }

  lemma {:induction false} KeepInside(lines: seq<string>, key: string)
    requires forall l :: l in lines ==> Closes(l) != Keyed(key)
    ensures Keep(lines, key, Keyed(key)) == [] && KeepMode(lines, key, Keyed(key)) == Keyed(key)
  {
    if lines != [] {
      assert lines[0] in lines;
      KeepInside(lines[1..], key);
    }
  }

  lemma KeepWrapped(first: string, body: seq<string>, last: string, key: string)
    requires Opens(first) == Keyed(key) && Closes(last) == Keyed(key)
    requires forall l :: l in body ==> Closes(l) != Keyed(key)
    ensures var block := [first] + body + [last];
            Keep(block, key, NoMark) == [] && KeepMode(block, key, NoMark) == NoMark
  {
    KeepInside(body, key);
    KeepConcat(body, [last], key, Keyed(key));
    assert ([first] + body + [last])[1..] == body + [last];
  }

  lemma KeepBlock(key: string, jobs: seq<CronJobLine>)
    requires IsKey(key) && NeverCloses(key, jobs)
    ensures Keep(BlockLines(key, jobs), key, NoMark) == [] && KeepMode(BlockLines(key, jobs), key, NoMark) == NoMark
  {
    MarkersParse(key);
    KeepWrapped(BeginMarker(key), BodyLines(jobs), EndMarker(key), key);
  }

  lemma {:induction false} DropEmptyTailIs(lines: seq<string>, n: nat)
    requires n <= |lines| && (n == 0 || lines[n - 1] != [])
    requires forall l :: l in lines[n..] ==> l == []
    ensures DropEmptyTail(lines) == lines[..n]
  {
    if n < |lines| {
      var m := |lines| - 1;
      assert lines[m] in lines[n..];
      assert forall l :: l in lines[..m][n..] ==> l in lines[n..];
      DropEmptyTailIs(lines[..m], n);
      assert lines[..m][..n] == lines[..n];
    } else {
      assert lines[..n] == lines;
    }
  }

  /** The lines a later merge finds outside of this key's block. */
  lemma SurvivorsOfMerge(existing: string, key: string, jobs: seq<CronJobLine>)
    requires IsKey(key)
    ensures var merged := MergeManagedBlock(existing, Render(key, jobs), key);
            Survivors(merged, key) ==
            DropEmptyTail(Survivors(existing, key) + Keep(BlockLines(key, jobs) + [[]], key, NoMark))
  {
    var kept := Survivors(existing, key);
    MergedLines(existing, key, jobs);
    SurvivorsPlain(existing, key);
    KeepUnopened(kept, key);
    KeepConcat(kept, BlockLines(key, jobs) + [[]], key, NoMark);
    ConcatAssoc(kept, BlockLines(key, jobs), [[]]);
  }

  lemma SameSurvivorsSameMerge(a: string, b: string, key: string, managed: string)
    requires Survivors(a, key) == Survivors(b, key)
    ensures MergeManagedBlock(a, managed, key) == MergeManagedBlock(b, managed, key)
  {
    SurvivorsPlain(a, key);
    SurvivorsPlain(b, key);
  }

  lemma SurvivorsKept(existing: string, key: string, jobs: seq<CronJobLine>)
    requires IsKey(key) && NeverCloses(key, jobs)
    ensures Survivors(MergeManagedBlock(existing, Render(key, jobs), key), key) == Survivors(existing, key)
  {
    var kept := Survivors(existing, key);
    assert Keep(BlockLines(key, jobs) + [[]], key, NoMark) == [[]] by {
      KeepBlock(key, jobs);
      KeepConcat(BlockLines(key, jobs), [[]], key, NoMark);
      EmptyLineOpensNothing();
    }
    SurvivorsOfMerge(existing, key, jobs);
    DropEmptyTailIs(kept + [[]], |kept|);
    assert (kept + [[]])[..|kept|] == kept;
  }

  lemma MergeTwice(existing: string, key: string, jobs1: seq<CronJobLine>, jobs2: seq<CronJobLine>)
    requires IsKey(key) && NeverCloses(key, jobs1)
    ensures var merged := MergeManagedBlock(existing, Render(key, jobs1), key);
            MergeManagedBlock(merged, Render(key, jobs2), key) == MergeManagedBlock(existing, Render(key, jobs2), key)
  {
    SurvivorsKept(existing, key, jobs1);
    SameSurvivorsSameMerge(MergeManagedBlock(existing, Render(key, jobs1), key), existing, key, Render(key, jobs2));
  }

  predicate ValidJob(j: CronJobLine) {
    ValidCronExpr(j.expr) && ValidCronCommand(j.command)
  }

  /** The command lines of a valid job are no markers, and the last of them is not empty. */
  lemma CommandLinesPlain(j: CronJobLine)
    requires ValidJob(j)
    ensures var ls := Split(CommandLine(j), '\n');
            ls[|ls| - 1] != [] && forall l :: l in ls ==> Opens(l) == NoMark && Closes(l) == NoMark
  {
    var e, c := TrimSpace(j.expr), " " + TrimSpace(j.command);
    assert '#' !in e by {
      if '#' in e {
        NonSpaceInFields(e, '#');
        assert false;
      }
    }
    assert '\n' !in c;
    TrimSpaceEnds(j.expr);
    var parts := Split(e, '\n');
    var n := |parts| - 1;
    SplitAppendPlain(e, c, '\n');
    assert CommandLine(j) == e + c;
    SplitPartsPlain(e, '\n');
    LastPartEnd(e, '\n');
    TrimSpaceHead(parts[n], c);
    forall l | l in parts[..n] + [parts[n] + c]
      ensures Opens(l) == NoMark && Closes(l) == NoMark
    {
      if l in parts[..n] {
        TrimSpaceEnds(l);
        assert '#' !in l;
      }
      MarkersStartWithHash(TrimSpace(l));
    }
  }

  /** After a line that closes the block, plain lines are kept. */
  lemma KeepAfterEnd(first: string, plain: seq<string>, rest: seq<string>, key: string)
    requires Closes(first) == Keyed(key) && Unopened(plain, key)
    ensures forall l :: l in plain ==> l in Keep(([first] + plain) + rest, key, Keyed(key))
  {
    assert (([first] + plain) + rest)[1..] == plain + rest;
    KeepUnopened(plain, key);
    KeepConcat(plain, rest, key, NoMark);
  }

  lemma KeepPastBody(body: seq<string>, rest: seq<string>, key: string)
    requires forall l :: l in body ==> Closes(l) != Keyed(key)
    ensures Keep(body + rest, key, Keyed(key)) == Keep(rest, key, Keyed(key))
  {
    KeepInside(body, key);
    KeepConcat(body, rest, key, Keyed(key));
  }

  /** An end-marker-shaped comment lets the job below it survive as a foreign line. */
  lemma {:induction false} EarlyEndLeaks(key: string, jobs: seq<CronJobLine>, tail: seq<string>)
    requires !NeverCloses(key, jobs)
    requires forall j :: j in jobs ==> ValidJob(j)
    ensures exists l :: l in Keep(BodyLines(jobs) + tail, key, Keyed(key)) && l != []
  {
    var j, comment, command := jobs[0], CommentLine(jobs[0]), Split(CommandLine(jobs[0]), '\n');
    var rest := BodyLines(jobs[1..]) + tail;
    CommandLinesPlain(j);
    ConcatAssoc(JobLines(j), BodyLines(jobs[1..]), tail);
    if j.comment != "" && Closes(comment) == Keyed(key) {
      assert JobLines(j) == [comment] + command;
      KeepAfterEnd(comment, command, rest, key);
      var last := command[|command| - 1];
      assert last in Keep(BodyLines(jobs) + tail, key, Keyed(key)) && last != [];
    } else {
      KeepPastBody(JobLines(j), rest, key);
      EarlyEndLeaks(key, jobs[1..], tail);
    }
  }

  /** A nonempty line is never trimmed away, nor is anything before it. */
  lemma {:induction false} NonEmptyStays(lines: seq<string>, k: nat)
    requires k < |lines| && lines[k] != []
    ensures |DropEmptyTail(lines)| > k
  {
    if lines[|lines| - 1] == [] {
      NonEmptyStays(lines[..|lines| - 1], k);
    }
  }

  lemma LeakIsLonger(kept: seq<string>, leak: seq<string>, l: string)
    requires l in leak && l != []
    ensures |DropEmptyTail(kept + leak)| > |kept|
  {
    var i :| 0 <= i < |leak| && leak[i] == l;
    NonEmptyStays(kept + leak, |kept| + i);
  }

  lemma BlockLeaks(key: string, jobs: seq<CronJobLine>) returns (l: string)
    requires IsKey(key) && !NeverCloses(key, jobs) && forall j :: j in jobs ==> ValidJob(j)
    ensures l in Keep(BlockLines(key, jobs) + [[]], key, NoMark) && l != []
  {
    var block, tail := BlockLines(key, jobs) + [[]], [EndMarker(key)] + [[]];
    assert Opens(BeginMarker(key)) == Keyed(key) by { MarkersParse(key); }
    EarlyEndLeaks(key, jobs, tail);
    assert block[0] == BeginMarker(key) && block[1..] == BodyLines(jobs) + tail;
    l :| l in Keep(BodyLines(jobs) + tail, key, Keyed(key)) && l != [];
  }

  lemma LeakedBlock(existing: string, key: string, jobs: seq<CronJobLine>)
    requires IsKey(key) && !NeverCloses(key, jobs) && forall j :: j in jobs ==> ValidJob(j)
    ensures |Survivors(MergeManagedBlock(existing, Render(key, jobs), key), key)| > |Survivors(existing, key)|
  {
    var l := BlockLeaks(key, jobs);
    SurvivorsOfMerge(existing, key, jobs);
    LeakIsLonger(Survivors(existing, key), Keep(BlockLines(key, jobs) + [[]], key, NoMark), l);
  }

  /** Merging m1 and then m2 under one key equals merging m2 alone exactly when no line of m1's body
      reads as the key's end marker; since only a comment can, a caller can test the comments. */
  lemma MergeTwiceIff(existing: string, key: string, jobs1: seq<CronJobLine>, jobs2: seq<CronJobLine>)
    requires IsKey(key) && forall j :: j in jobs1 ==> ValidJob(j)
    ensures var merged := MergeManagedBlock(existing, Render(key, jobs1), key);
            MergeManagedBlock(merged, Render(key, jobs2), key) == MergeManagedBlock(existing, Render(key, jobs2), key)
            <==> NeverCloses(key, jobs1)
  {
    var merged := MergeManagedBlock(existing, Render(key, jobs1), key);
    if NeverCloses(key, jobs1) {
      MergeTwice(existing, key, jobs1, jobs2);
    } else {
      LeakedBlock(existing, key, jobs1);
      MergedLines(merged, key, jobs2);
      MergedLines(existing, key, jobs2);
    }
  }

  lemma {:induction false} OnlyCommentsClose(key: string, jobs: seq<CronJobLine>)
    requires forall j :: j in jobs ==> ValidJob(j)
    ensures NeverCloses(key, jobs) <==>
            forall j :: j in jobs && j.comment != "" ==> Closes(CommentLine(j)) != Keyed(key)
  {
    if jobs != [] {
      CommandLinesPlain(jobs[0]);
      OnlyCommentsClose(key, jobs[1..]);
      var rest := BodyLines(jobs[1..]);
      assert jobs == [jobs[0]] + jobs[1..];
      assert forall l :: l in BodyLines(jobs) <==> l in JobLines(jobs[0]) || l in rest;
      assert NeverCloses(key, jobs) <==>
             (forall l :: l in JobLines(jobs[0]) ==> Closes(l) != Keyed(key)) && NeverCloses(key, jobs[1..]);
      assert (forall l :: l in JobLines(jobs[0]) ==> Closes(l) != Keyed(key)) <==>
             (jobs[0].comment != "" ==> Closes(CommentLine(jobs[0])) != Keyed(key)) by {
        assert jobs[0].comment != "" ==> CommentLine(jobs[0]) in JobLines(jobs[0]);
      }
    }
  }

  lemma {:induction false} SanitizePrintable(s: string)
    requires forall i :: 0 <= i < |s| ==> s[i] >= ' '
    ensures SanitizeComment(s) == s
  {
    if s != [] {
      SanitizePrintable(s[1..]);
    }
  }

  /** Such a comment exists for every key, so the law above does fail for some valid jobs. */
  lemma CommentThatCloses(key: string, j: CronJobLine)
    requires IsKey(key) && j.comment == Caption() + ("END (managed:" + key + MarkerTail())
    ensures j.comment != "" && Closes(CommentLine(j)) == Keyed(key) && !NeverCloses(key, [j])
  {
    assert CommentLine(j) == EndMarker(key) by {
      assert forall i :: 0 <= i < |key| ==> key[i] >= ' ';
      SanitizePrintable(j.comment);
      ConcatAssoc("# ", Caption(), "END (managed:" + key + MarkerTail());
      ConcatAssoc(Stem(), "END (managed:", key);
      ConcatAssoc(Stem(), "END (managed:" + key, MarkerTail());
    }
    MarkersParse(key);
    assert JobLines(j)[0] == CommentLine(j);
    assert BodyLines([j]) == JobLines(j);
    assert CommentLine(j) in BodyLines([j]);
  }

  // ---------- Who owns which line ----------

  /** The mode after one line, reading a crontab as blocks of every key. */
  function Next(line: string, mode: Mark): Mark {
    if mode.NoMark? then Opens(line) else if Closes(line) == mode then NoMark else mode
  }

  /** The lines of one owner, in order; NoMark owns what lies outside of every block. */
  function Owned(lines: seq<string>, who: Mark, mode: Mark): seq<string> {
    if lines == [] then []
    else
      var owner := if mode.NoMark? then Opens(lines[0]) else mode;
      (if owner == who then [lines[0]] else []) + Owned(lines[1..], who, Next(lines[0], mode))
  }

  /** Every block is closed by its own end marker and, unless it is an old one, opens no other. */
  predicate WellFormedFrom(lines: seq<string>, mode: Mark) {
    if lines == [] then mode.NoMark?
    else
      (mode.Keyed? ==> Opens(lines[0]) == NoMark || Opens(lines[0]) == mode) &&
      WellFormedFrom(lines[1..], Next(lines[0], mode))
  }

  predicate WellFormed(text: string) {
    WellFormedFrom(Split(text, '\n'), NoMark)
  }

  function NonEmpty(lines: seq<string>): seq<string> {
    if lines == [] then [] else (if lines[0] != [] then [lines[0]] else []) + NonEmpty(lines[1..])
  }

  /** The user's own lines. */
  function Foreign(text: string): seq<string> {
    NonEmpty(Owned(Split(text, '\n'), NoMark, NoMark))
  }

  /** The lines of all blocks of one owner. */
  function Block(text: string, who: Mark): seq<string> {
    Owned(Split(text, '\n'), who, NoMark)
  }

  /** Blocks `Keep` drops for `key`. */
  predicate Dropped(who: Mark, key: string) {
    who == Legacy || who == Keyed(key)
  }

  lemma {:induction false} OwnedConcat(a: seq<string>, b: seq<string>, who: Mark, mode: Mark)
    requires WellFormedFrom(a, mode)
    ensures Owned(a + b, who, mode) == Owned(a, who, mode) + Owned(b, who, NoMark)
    ensures WellFormedFrom(a + b, mode) <==> WellFormedFrom(b, NoMark)
  {
    if a == [] {
      assert a + b == b;
    } else {
      var next := Next(a[0], mode);
      var head := if (if mode.NoMark? then Opens(a[0]) else mode) == who then [a[0]] else [];
      assert (a + b)[0] == a[0] && (a + b)[1..] == a[1..] + b;
      OwnedConcat(a[1..], b, who, next);
      ConcatAssoc(head, Owned(a[1..], who, next), Owned(b, who, NoMark));
    }
  }

  lemma {:induction false} NonEmptyConcat(a: seq<string>, b: seq<string>)
    ensures NonEmpty(a + b) == NonEmpty(a) + NonEmpty(b)
  {
    if a == [] {
      assert a + b == b;
    } else {
      assert (a + b)[1..] == a[1..] + b;
      NonEmptyConcat(a[1..], b);
    }
  }

  /** Stripping removes exactly the lines owned by the key and by old blocks. */
  lemma {:induction false} KeepOwned(lines: seq<string>, key: string, who: Mark, mode: Mark)
    requires WellFormedFrom(lines, mode)
    ensures var inside := Dropped(mode, key);
            var kept := Keep(lines, key, if inside then mode else NoMark);
            WellFormedFrom(kept, if inside then NoMark else mode) &&
            Owned(kept, who, if inside then NoMark else mode) ==
            if Dropped(who, key) then [] else Owned(lines, who, mode)
  {
    if lines != [] {
      var l, rest := lines[0], lines[1..];
      var next := Next(l, mode);
      var kept := Keep(rest, key, if Dropped(next, key) then next else NoMark);
      KeepOwned(rest, key, who, next);
      KeepFirst(lines, key, mode);
      if !Dropped(mode, key) && !(mode.NoMark? && Dropped(Opens(l), key)) {
        OwnedCons(l, kept, who, mode);
      }
    }
  }

  /** The first line is dropped with its block or kept. */
  lemma KeepFirst(lines: seq<string>, key: string, mode: Mark)
    requires lines != []
    ensures var next := Next(lines[0], mode);
            var kept := Keep(lines[1..], key, if Dropped(next, key) then next else NoMark);
            Keep(lines, key, if Dropped(mode, key) then mode else NoMark) ==
            if Dropped(mode, key) || Dropped(Opens(lines[0]), key) then
              Keep(lines[1..], key, if Dropped(mode, key) then (if Closes(lines[0]) == mode then NoMark else mode)
                                    else Opens(lines[0]))
            else [lines[0]] + Keep(lines[1..], key, NoMark)
  {
  }

  lemma OwnedCons(l: string, rest: seq<string>, who: Mark, mode: Mark)
    ensures Owned([l] + rest, who, mode) ==
            (if (if mode.NoMark? then Opens(l) else mode) == who then [l] else []) + Owned(rest, who, Next(l, mode))
    ensures WellFormedFrom([l] + rest, mode) <==>
            (mode.Keyed? ==> Opens(l) == NoMark || Opens(l) == mode) && WellFormedFrom(rest, Next(l, mode))
  {
    assert ([l] + rest)[1..] == rest;
  }

  lemma {:induction false} OwnedEmptyTail(lines: seq<string>, n: nat, who: Mark, mode: Mark)
    requires WellFormedFrom(lines, mode)
    requires n <= |lines| && forall l :: l in lines[n..] ==> l == []
    ensures WellFormedFrom(lines[..n], mode)
    ensures !who.NoMark? ==> Owned(lines[..n], who, mode) == Owned(lines, who, mode)
    ensures NonEmpty(Owned(lines[..n], who, mode)) == NonEmpty(Owned(lines, who, mode))
  {
    EmptyLineOpensNothing();
    if lines != [] {
      var next := Next(lines[0], mode);
      if n == 0 {
        assert lines[0] in lines[n..];
        assert forall l :: l in lines[1..][0..] ==> l in lines[n..];
        OwnedEmptyTail(lines[1..], 0, who, next);
      } else {
        assert lines[1..][n - 1..] == lines[n..];
        OwnedEmptyTail(lines[1..], n - 1, who, next);
        assert lines[..n][1..] == lines[1..][..n - 1];
        var head := if (if mode.NoMark? then Opens(lines[0]) else mode) == who then [lines[0]] else [];
        NonEmptyConcat(head, Owned(lines[1..], who, next));
        NonEmptyConcat(head, Owned(lines[1..][..n - 1], who, next));
      }
    }
  }

  /** No line of the rendered body reads as a marker that would disturb the block. */
  predicate Clean(key: string, jobs: seq<CronJobLine>) {
    forall l :: l in BodyLines(jobs) ==> Closes(l) != Keyed(key) && (Opens(l) == NoMark || Opens(l) == Keyed(key))
  }

  lemma {:induction false} OwnedInside(lines: seq<string>, last: string, key: string, who: Mark)
    requires forall l :: l in lines ==> Closes(l) != Keyed(key) && (Opens(l) == NoMark || Opens(l) == Keyed(key))
    requires Closes(last) == Keyed(key) && Opens(last) == NoMark
    ensures WellFormedFrom(lines + [last], Keyed(key))
    ensures Owned(lines + [last], who, Keyed(key)) == if who == Keyed(key) then lines + [last] else []
  {
    var all := lines + [last];
    if lines == [] {
      assert all == [last];
    } else {
      assert lines[0] in lines;
      OwnedInside(lines[1..], last, key, who);
      assert all[1..] == lines[1..] + [last];
      assert all == [lines[0]] + all[1..];
    }
  }

  lemma OwnedWrapped(first: string, body: seq<string>, last: string, key: string, who: Mark)
    requires Opens(first) == Keyed(key) && Closes(last) == Keyed(key) && Opens(last) == NoMark
    requires forall l :: l in body ==> Closes(l) != Keyed(key) && (Opens(l) == NoMark || Opens(l) == Keyed(key))
    ensures var block := [first] + body + [last];
            WellFormedFrom(block, NoMark) && Owned(block, who, NoMark) == if who == Keyed(key) then block else []
  {
    OwnedInside(body, last, key, who);
    ConcatAssoc([first], body, [last]);
    OwnedCons(first, body + [last], who, NoMark);
  }

  lemma OwnedBlock(key: string, jobs: seq<CronJobLine>, who: Mark)
    requires IsKey(key) && Clean(key, jobs)
    ensures WellFormedFrom(BlockLines(key, jobs), NoMark)
    ensures Owned(BlockLines(key, jobs), who, NoMark) == if who == Keyed(key) then BlockLines(key, jobs) else []
  {
    MarkersParse(key);
    OwnedWrapped(BeginMarker(key), BodyLines(jobs), EndMarker(key), key, who);
  }

  lemma SurvivorsOwned(existing: string, key: string, who: Mark)
    requires WellFormed(existing)
    ensures WellFormedFrom(Survivors(existing, key), NoMark)
    ensures !who.NoMark? ==>
              Owned(Survivors(existing, key), who, NoMark) == if Dropped(who, key) then [] else Block(existing, who)
    ensures NonEmpty(Owned(Survivors(existing, key), NoMark, NoMark)) == Foreign(existing)
  {
    var kept := Keep(Split(existing, '\n'), key, NoMark);
    var left := Survivors(existing, key);
    assert kept[..|left|] == left;
    KeepOwned(Split(existing, '\n'), key, who, NoMark);
    OwnedEmptyTail(kept, |left|, who, NoMark);
    KeepOwned(Split(existing, '\n'), key, NoMark, NoMark);
    OwnedEmptyTail(kept, |left|, NoMark, NoMark);
  }

  lemma OwnedNewBlock(key: string, jobs: seq<CronJobLine>, who: Mark)
    requires IsKey(key) && Clean(key, jobs)
    ensures var block := BlockLines(key, jobs) + [[]];
            WellFormedFrom(block, NoMark) &&
            (!who.NoMark? ==> Owned(block, who, NoMark) == if who == Keyed(key) then BlockLines(key, jobs) else []) &&
            NonEmpty(Owned(block, NoMark, NoMark)) == []
  {
    EmptyLineOpensNothing();
    assert Owned([[]], who, NoMark) == if who == NoMark then [[]] else [];
    OwnedBlock(key, jobs, who);
    OwnedConcat(BlockLines(key, jobs), [[]], who, NoMark);
    OwnedBlock(key, jobs, NoMark);
    OwnedConcat(BlockLines(key, jobs), [[]], NoMark, NoMark);
    assert NonEmpty([[]]) == [];
  }

  lemma OwnedOfParts(text: string, left: seq<string>, block: seq<string>, who: Mark)
    requires Split(text, '\n') == left + block && WellFormedFrom(left, NoMark) && WellFormedFrom(block, NoMark)
    ensures WellFormed(text) && Block(text, who) == Owned(left, who, NoMark) + Owned(block, who, NoMark)
    ensures Foreign(text) == NonEmpty(Owned(left, NoMark, NoMark)) + NonEmpty(Owned(block, NoMark, NoMark))
  {
    OwnedConcat(left, block, who, NoMark);
    OwnedConcat(left, block, NoMark, NoMark);
    NonEmptyConcat(Owned(left, NoMark, NoMark), Owned(block, NoMark, NoMark));
  }

  lemma MergeOwner(existing: string, key: string, jobs: seq<CronJobLine>, who: Mark)
    requires WellFormed(existing) && IsKey(key) && Clean(key, jobs)
    ensures var merged := MergeManagedBlock(existing, Render(key, jobs), key);
            WellFormed(merged) && Foreign(merged) == Foreign(existing) &&
            (!who.NoMark? ==> Block(merged, who) == if who == Keyed(key) then BlockLines(key, jobs)
                                                    else if who == Legacy then [] else Block(existing, who))
  {
    var merged := MergeManagedBlock(existing, Render(key, jobs), key);
    var left, block := Survivors(existing, key), BlockLines(key, jobs) + [[]];
    assert Split(merged, '\n') == left + block by {
      MergedLines(existing, key, jobs);
      ConcatAssoc(left, BlockLines(key, jobs), [[]]);
    }
    SurvivorsOwned(existing, key, who);
    OwnedNewBlock(key, jobs, who);
    OwnedOfParts(merged, left, block, who);
  }

  /** Main law of the merge: the new text is well formed, holds exactly the new block for the key,
      no old block, and for everyone else - other keys and the user - the same lines in the same order. */
  lemma MergeViews(existing: string, key: string, jobs: seq<CronJobLine>)
    requires WellFormed(existing) && IsKey(key) && Clean(key, jobs)
    ensures var merged := MergeManagedBlock(existing, Render(key, jobs), key);
            WellFormed(merged) && Foreign(merged) == Foreign(existing) &&
            Block(merged, Keyed(key)) == BlockLines(key, jobs) &&
            Block(merged, Legacy) == [] &&
            forall other :: other != key ==> Block(merged, Keyed(other)) == Block(existing, Keyed(other))
  {
    MergeOwner(existing, key, jobs, Keyed(key));
    MergeOwner(existing, key, jobs, Legacy);
    forall other | other != key
      ensures Block(MergeManagedBlock(existing, Render(key, jobs), key), Keyed(other)) == Block(existing, Keyed(other))
    {
      MergeOwner(existing, key, jobs, Keyed(other));
    }
  }

  /** Equal up to the order of the blocks and to empty lines. */
  ghost predicate SameUpToBlockOrder(a: string, b: string) {
    WellFormed(a) && WellFormed(b) && Foreign(a) == Foreign(b) &&
    forall who: Mark :: !who.NoMark? ==> Block(a, who) == Block(b, who)
  }

  lemma MergesCommute(existing: string, key1: string, jobs1: seq<CronJobLine>, key2: string, jobs2: seq<CronJobLine>)
    requires WellFormed(existing) && IsKey(key1) && IsKey(key2) && key1 != key2
    requires Clean(key1, jobs1) && Clean(key2, jobs2)
    ensures var m1, m2 := Render(key1, jobs1), Render(key2, jobs2);
            SameUpToBlockOrder(MergeManagedBlock(MergeManagedBlock(existing, m1, key1), m2, key2),
                               MergeManagedBlock(MergeManagedBlock(existing, m2, key2), m1, key1))
  {
    var m1, m2 := Render(key1, jobs1), Render(key2, jobs2);
    var a1, b1 := MergeManagedBlock(existing, m1, key1), MergeManagedBlock(existing, m2, key2);
    var a, b := MergeManagedBlock(a1, m2, key2), MergeManagedBlock(b1, m1, key1);
    MergeViews(existing, key1, jobs1);
    MergeViews(existing, key2, jobs2);
    assert WellFormed(a) && Foreign(a) == Foreign(a1) by { MergeViews(a1, key2, jobs2); }
    assert WellFormed(b) && Foreign(b) == Foreign(b1) by { MergeViews(b1, key1, jobs1); }
    forall who: Mark | !who.NoMark?
      ensures Block(a, who) == Block(b, who)
    {
      MergeOwner(a1, key2, jobs2, who);
      MergeOwner(b1, key1, jobs1, who);
      MergeOwner(existing, key1, jobs1, who);
      MergeOwner(existing, key2, jobs2, who);
    }
  }
}

/** internal/system/crontab.go: job comments that print a line shaped like a marker. The source accepts them; here is
    exactly what they spoil. */
module CrontabComments {
  import opened Text
  import opened Crontab
  import opened CrontabLaws

  predicate AllValid(jobs: seq<CronJobLine>) {
    forall j :: j in jobs ==> ValidJob(j)
  }

  /** What the source promises of a merge, all of it. */
  ghost predicate MergedWell(existing: string, merged: string, key: string, jobs: seq<CronJobLine>) {
    WellFormed(merged) && Foreign(merged) == Foreign(existing) &&
    Block(merged, Keyed(key)) == BlockLines(key, jobs) &&
    Block(merged, Legacy) == [] &&
    forall other :: other != key ==> Block(merged, Keyed(other)) == Block(existing, Keyed(other))
  }

  predicate Plain(lines: seq<string>) {
    forall l :: l in lines ==> Opens(l) == NoMark && Closes(l) == NoMark
  }

  /** Lines that are no markers belong to the block they stand in. */
  lemma {:induction false} PlainOwned(plain: seq<string>, rest: seq<string>, mode: Mark)
    requires Plain(plain)
    ensures WellFormedFrom(plain + rest, mode) <==> WellFormedFrom(rest, mode)
    ensures Owned(plain + rest, NoMark, mode) ==
            (if mode.NoMark? then plain else []) + Owned(rest, NoMark, mode)
  {
    if plain == [] {
      assert plain + rest == rest;
    } else {
      var l, more := plain[0], plain[1..];
      assert l in plain && Plain(more);
      PlainOwned(more, rest, mode);
      OwnedCons(l, more + rest, NoMark, mode);
      assert plain + rest == [l] + (more + rest) && plain == [l] + more;
    }
  }

  lemma {:induction false} NonEmptyHas(lines: seq<string>, k: nat)
    requires k < |lines| && lines[k] != []
    ensures NonEmpty(lines) != []
  {
    if k > 0 {
      NonEmptyHas(lines[1..], k - 1);
    }
  }

  /** A comment that closes the block turns the command below it into a line of nobody's. */
  lemma EarlyCloseShows(comment: string, command: seq<string>, rest: seq<string>, key: string)
    requires Plain(command) && command != [] && command[|command| - 1] != [] && Closes(comment) == Keyed(key)
    ensures NonEmpty(Owned([comment] + (command + rest), NoMark, Keyed(key))) != []
  {
    OwnedCons(comment, command + rest, NoMark, Keyed(key));
    PlainOwned(command, rest, NoMark);
    var below := Owned(rest, NoMark, NoMark);
    assert Owned([comment] + (command + rest), NoMark, Keyed(key)) == command + below;
    NonEmptyConcat(command, below);
    NonEmptyHas(command, |command| - 1);
  }

  predicate HarmlessLine(l: string, key: string) {
    Closes(l) != Keyed(key) && (Opens(l) == NoMark || Opens(l) == Keyed(key))
  }

  predicate Harmless(lines: seq<string>, key: string) {
    forall l :: l in lines ==> HarmlessLine(l, key)
  }

  lemma HarmlessCat(a: seq<string>, b: seq<string>, key: string)
    ensures Harmless(a + b, key) <==> Harmless(a, key) && Harmless(b, key)
  {
    assert forall l :: l in a + b <==> l in a || l in b;
  }

  lemma PlainIsHarmless(plain: seq<string>, key: string)
    requires Plain(plain)
    ensures Harmless(plain, key)
  {
  }

  lemma HarmlessJob(j: CronJobLine, key: string)
    requires ValidJob(j)
    ensures Harmless(JobLines(j), key) <==> (j.comment != "" ==> HarmlessLine(CommentLine(j), key))
  {
    var comment: seq<string>, command := if j.comment != "" then [CommentLine(j)] else [], Split(CommandLine(j), '\n');
    CommandLinesPlain(j);
    PlainIsHarmless(command, key);
    HarmlessCat(comment, command, key);
    assert j.comment != "" ==> CommentLine(j) in comment;
  }

  lemma CleanCons(key: string, jobs: seq<CronJobLine>)
    requires jobs != [] && ValidJob(jobs[0])
    ensures Clean(key, jobs) <==>
            (jobs[0].comment != "" ==> HarmlessLine(CommentLine(jobs[0]), key)) && Clean(key, jobs[1..])
  {
    HarmlessJob(jobs[0], key);
    HarmlessCat(JobLines(jobs[0]), BodyLines(jobs[1..]), key);
    assert Clean(key, jobs) <==> Harmless(BodyLines(jobs), key);
    assert Clean(key, jobs[1..]) <==> Harmless(BodyLines(jobs[1..]), key);
  }

  /** Only a comment can spoil a block, so that Clean is a test of the comments. */
  lemma {:induction false} OnlyCommentsSpoil(key: string, jobs: seq<CronJobLine>)
    requires AllValid(jobs)
    ensures Clean(key, jobs) <==> forall j :: j in jobs && j.comment != "" ==> HarmlessLine(CommentLine(j), key)
  {
    if jobs != [] {
      CleanCons(key, jobs);
      OnlyCommentsSpoil(key, jobs[1..]);
      assert jobs == [jobs[0]] + jobs[1..];
    }
  }

  /** One job, read inside its block: nothing foreign shows only if its comment is harmless, and the block goes on. */
  lemma JobShows(j: CronJobLine, rest: seq<string>, key: string)
    requires ValidJob(j) && WellFormedFrom(JobLines(j) + rest, Keyed(key))
    requires NonEmpty(Owned(JobLines(j) + rest, NoMark, Keyed(key))) == []
    ensures j.comment != "" ==> HarmlessLine(CommentLine(j), key)
    ensures WellFormedFrom(rest, Keyed(key)) && NonEmpty(Owned(rest, NoMark, Keyed(key))) == []
  {
    var command := Split(CommandLine(j), '\n');
    CommandLinesPlain(j);
    PlainOwned(command, rest, Keyed(key));
    assert Owned(command + rest, NoMark, Keyed(key)) == Owned(rest, NoMark, Keyed(key));
    if j.comment == "" {
      assert JobLines(j) == command;
    } else {
      var comment := CommentLine(j);
      assert JobLines(j) + rest == [comment] + (command + rest) by {
        ConcatAssoc([comment], command, rest);
      }
      OwnedCons(comment, command + rest, NoMark, Keyed(key));
      if Closes(comment) == Keyed(key) {
        EarlyCloseShows(comment, command, rest, key);
      } else {
        assert Owned([comment] + (command + rest), NoMark, Keyed(key)) == Owned(command + rest, NoMark, Keyed(key));
      }
    }
  }

  lemma {:induction false} WellFormedIsClean(key: string, jobs: seq<CronJobLine>, tail: seq<string>)
    requires AllValid(jobs) && WellFormedFrom(BodyLines(jobs) + tail, Keyed(key))
    requires NonEmpty(Owned(BodyLines(jobs) + tail, NoMark, Keyed(key))) == []
    ensures Clean(key, jobs)
  {
    if jobs != [] {
      ConcatAssoc(JobLines(jobs[0]), BodyLines(jobs[1..]), tail);
      JobShows(jobs[0], BodyLines(jobs[1..]) + tail, key);
      WellFormedIsClean(key, jobs[1..], tail);
      CleanCons(key, jobs);
    }
  }

  lemma WrappedIsClean(first: string, last: seq<string>, key: string, jobs: seq<CronJobLine>)
    requires AllValid(jobs) && Opens(first) == Keyed(key)
    requires var block := [first] + (BodyLines(jobs) + last);
             WellFormedFrom(block, NoMark) && NonEmpty(Owned(block, NoMark, NoMark)) == []
    ensures Clean(key, jobs)
  {
    var inside := BodyLines(jobs) + last;
    OwnedCons(first, inside, NoMark, NoMark);
    assert Owned([first] + inside, NoMark, NoMark) == Owned(inside, NoMark, Keyed(key));
    WellFormedIsClean(key, jobs, last);
  }

  /** A text that begins with well-formed lines and has no other foreign lines. */
  lemma NothingForeignBehind(text: string, left: seq<string>, block: seq<string>)
    requires Split(text, '\n') == left + block && WellFormedFrom(left, NoMark) && WellFormed(text)
    requires Foreign(text) == NonEmpty(Owned(left, NoMark, NoMark))
    ensures WellFormedFrom(block, NoMark) && NonEmpty(Owned(block, NoMark, NoMark)) == []
  {
    OwnedConcat(left, block, NoMark, NoMark);
    NonEmptyConcat(Owned(left, NoMark, NoMark), Owned(block, NoMark, NoMark));
    var a, b := NonEmpty(Owned(left, NoMark, NoMark)), NonEmpty(Owned(block, NoMark, NoMark));
    assert |a + b| == |a| + |b|;
  }

  lemma MergedWellIsClean(existing: string, key: string, jobs: seq<CronJobLine>)
    requires WellFormed(existing) && IsKey(key) && AllValid(jobs)
    requires MergedWell(existing, MergeManagedBlock(existing, Render(key, jobs), key), key, jobs)
    ensures Clean(key, jobs)
  {
    var merged := MergeManagedBlock(existing, Render(key, jobs), key);
    var left, block := Survivors(existing, key), BlockLines(key, jobs) + [[]];
    assert Split(merged, '\n') == left + block by {
      MergedLines(existing, key, jobs);
      ConcatAssoc(left, BlockLines(key, jobs), [[]]);
    }
    SurvivorsOwned(existing, key, NoMark);
    NothingForeignBehind(merged, left, block);
    assert block == [BeginMarker(key)] + (BodyLines(jobs) + ([EndMarker(key)] + [[]])) by {
      BlockIs(BeginMarker(key), BodyLines(jobs), EndMarker(key));
    }
    assert Opens(BeginMarker(key)) == Keyed(key) by {
      MarkersParse(key);
    }
    WrappedIsClean(BeginMarker(key), [EndMarker(key)] + [[]], key, jobs);
  }

  lemma BlockIs(first: string, body: seq<string>, last: string)
    ensures ([first] + body + [last]) + [[]] == [first] + (body + ([last] + [[]]))
  {
  }

  /** The law of the merge holds if and only if no comment prints a marker: the end of the block it stands in, or
      the beginning of another one. */
  lemma MergeViewsIff(existing: string, key: string, jobs: seq<CronJobLine>)
    requires WellFormed(existing) && IsKey(key) && AllValid(jobs)
    ensures MergedWell(existing, MergeManagedBlock(existing, Render(key, jobs), key), key, jobs) <==>
            forall j :: j in jobs && j.comment != "" ==> HarmlessLine(CommentLine(j), key)
  {
    OnlyCommentsSpoil(key, jobs);
    if Clean(key, jobs) {
      MergeViews(existing, key, jobs);
    } else if MergedWell(existing, MergeManagedBlock(existing, Render(key, jobs), key), key, jobs) {
      MergedWellIsClean(existing, key, jobs);
    }
  }

  lemma UnopenedWrapped(first: string, body: seq<string>, last: string, key: string)
    requires Opens(first) != Legacy && Opens(first) != Keyed(key) && Opens(last) == NoMark
    ensures Unopened([first] + body + [last], key) <==> Unopened(body, key)
  {
    var block := [first] + body + [last];
    assert forall i :: 0 <= i < |body| ==> block[i + 1] == body[i];
    assert forall i :: 0 <= i < |block| ==> i == 0 || i == |block| - 1 || block[i] == body[i - 1];
  }

  /** A merge for another key leaves a block verbatim if and only if no line of it opens a block of that key or an
      old-style one. */
  lemma BlockSurvivesIff(key: string, jobs: seq<CronJobLine>, other: string)
    requires IsKey(key) && other != key
    ensures Keep(BlockLines(key, jobs), other, NoMark) == BlockLines(key, jobs) <==> Unopened(BodyLines(jobs), other)
  {
    var block := BlockLines(key, jobs);
    assert Unopened(block, other) <==> Unopened(BodyLines(jobs), other) by {
      MarkersParse(key);
      UnopenedWrapped(BeginMarker(key), BodyLines(jobs), EndMarker(key), other);
    }
    if Unopened(block, other) {
      KeepUnopened(block, other);
    } else {
      KeepIsUnopened(block, other, NoMark);
    }
  }

  lemma BeginAsComment(other: string, j: CronJobLine)
    requires IsKey(other) && j.comment == Caption() + ("BEGIN (managed:" + other + MarkerTail())
    ensures j.comment != "" && CommentLine(j) == BeginMarker(other)
  {
    assert forall i :: 0 <= i < |other| ==> other[i] >= ' ';
    SanitizePrintable(j.comment);
    ConcatAssoc("# ", Caption(), "BEGIN (managed:" + other + MarkerTail());
    ConcatAssoc(Stem(), "BEGIN (managed:", other);
    ConcatAssoc(Stem(), "BEGIN (managed:" + other, MarkerTail());
  }

  lemma OpenedEats(first: string, begin: string, inside: seq<string>, other: string)
    requires Opens(first) != Legacy && Opens(first) != Keyed(other) && Opens(begin) == Keyed(other)
    requires forall l :: l in inside ==> Closes(l) != Keyed(other)
    ensures Keep([first] + ([begin] + inside), other, NoMark) == [first]
  {
    assert ([first] + ([begin] + inside))[1..] == [begin] + inside && ([begin] + inside)[1..] == inside;
    KeepInside(inside, other);
  }

  /** A comment that prints the begin marker of another key: the next merge for that key strips the rest of this
      block, its end marker included, and on until it finds an end marker of its own. */
  lemma ForeignBeginEats(key: string, other: string, j: CronJobLine, rest: seq<string>)
    requires IsKey(key) && IsKey(other) && key != other && ValidJob(j)
    requires j.comment == Caption() + ("BEGIN (managed:" + other + MarkerTail())
    requires forall l :: l in rest ==> Closes(l) != Keyed(other)
    ensures Keep(BlockLines(key, [j]) + rest, other, NoMark) == [BeginMarker(key)]
  {
    var command := Split(CommandLine(j), '\n');
    var first, begin, last := BeginMarker(key), BeginMarker(other), EndMarker(key);
    assert BodyLines([j]) == [begin] + command by {
      BeginAsComment(other, j);
      assert [j][1..] == [] && BodyLines([]) == [];
    }
    var inside := command + ([last] + rest);
    assert BlockLines(key, [j]) + rest == [first] + ([begin] + inside) by {
      BlockAndRest(first, begin, command, last, rest);
    }
    assert Opens(first) == Keyed(key) && Opens(begin) == Keyed(other) && Closes(last) == Keyed(key) by {
      MarkersParse(key);
      MarkersParse(other);
    }
    CommandLinesPlain(j);
    OpenedEats(first, begin, inside, other);
  }

  lemma BlockAndRest(first: string, begin: string, command: seq<string>, last: string, rest: seq<string>)
    ensures ([first] + ([begin] + command) + [last]) + rest == [first] + ([begin] + (command + ([last] + rest)))
  {
  }
}

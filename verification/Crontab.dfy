/** internal/system/crontab.go: the managed blocks that panel instances keep in one shared crontab. */
module Crontab {
  import opened Text

  // ---------- Markers ----------

  function Caption(): string { "=== XPANEL-CRON " }
  function Stem(): string { "# " + Caption() }
  function BeginHead(): string { Stem() + "BEGIN (managed:" }
  function EndHead(): string { Stem() + "END (managed:" }
  function MarkerTail(): string { ") ===" }
  function LegacyBegin(): string { Stem() + "BEGIN (managed" + ", do not edit) ===" }
  function LegacyEnd(): string { Stem() + "END ===" }

  predicate IsKey(key: string) {
    key != [] && forall i :: 0 <= i < |key| ==> 'a' <= key[i] <= 'z' || '0' <= key[i] <= '9'
  }

  function BeginMarker(key: string): string { BeginHead() + key + MarkerTail() }
  function EndMarker(key: string): string { EndHead() + key + MarkerTail() }

  /** What a line is to the marker parsers: nothing, an old marker without a key, or a keyed one. */
  datatype Mark = NoMark | Legacy | Keyed(key: string)

  /** The regular expressions `^<head>([a-z0-9]+)<tail>$`. */
  function KeyedMark(line: string, head: string): Mark {
    if HasPrefix(line, head) && HasSuffix(line, MarkerTail()) && |head| + |MarkerTail()| <= |line| &&
       IsKey(line[|head|..|line| - |MarkerTail()|])
    then Keyed(line[|head|..|line| - |MarkerTail()|]) else NoMark
  }

  function ParseCronBegin(line: string): Mark {
    if line == LegacyBegin() then Legacy else KeyedMark(line, BeginHead())
  }

  function ParseCronEnd(line: string): Mark {
    if line == LegacyEnd() then Legacy else KeyedMark(line, EndHead())
  }

  function Opens(line: string): Mark { ParseCronBegin(TrimSpace(line)) }
  function Closes(line: string): Mark { ParseCronEnd(TrimSpace(line)) }

  lemma HeadsDiffer(line: string)
    ensures HasPrefix(line, BeginHead()) ==> !HasPrefix(line, EndHead()) && line != LegacyBegin() && line != LegacyEnd()
    ensures HasPrefix(line, EndHead()) ==> line != LegacyBegin() && line != LegacyEnd()
    ensures HasPrefix(line, BeginHead()) || HasPrefix(line, EndHead()) ==> line[0] == '#'
    ensures LegacyBegin()[0] == LegacyEnd()[0] == '#'
  {
    var n := |Stem()|;
    assert BeginHead()[n] == 'B' && EndHead()[n] == 'E' && LegacyEnd()[n] == 'E' && LegacyBegin()[n] == 'B';
    assert BeginHead()[n + 14] == ':' && LegacyBegin()[n + 14] == ',';
    assert EndHead()[n + 4] == '(' && LegacyEnd()[n + 4] == '=';
    assert BeginHead()[0] == '#' && EndHead()[0] == '#';
    if HasPrefix(line, BeginHead()) {
      assert line[n] == line[..|BeginHead()|][n] && line[n + 14] == line[..|BeginHead()|][n + 14];
      assert line[0] == line[..|BeginHead()|][0];
    }
    if HasPrefix(line, EndHead()) {
      assert line[n] == line[..|EndHead()|][n] && line[n + 4] == line[..|EndHead()|][n + 4];
      assert line[0] == line[..|EndHead()|][0];
    }
  }

  lemma KeyedMarkParses(head: string, key: string)
    requires IsKey(key)
    ensures var line := head + key + MarkerTail(); HasPrefix(line, head) && KeyedMark(line, head) == Keyed(key)
  {
    var line := head + key + MarkerTail();
    assert line[..|head|] == head;
    assert line[|head|..|line| - |MarkerTail()|] == key;
    assert line[|line| - |MarkerTail()|..] == MarkerTail();
  }

  /** The marker of one key is read back as that key, and begin and end markers are never confused. */
  lemma MarkersParse(key: string)
    requires IsKey(key)
    ensures Opens(BeginMarker(key)) == Keyed(key) && Closes(BeginMarker(key)) == NoMark
    ensures Opens(EndMarker(key)) == NoMark && Closes(EndMarker(key)) == Keyed(key)
  {
    var b, e := BeginMarker(key), EndMarker(key);
    KeyedMarkParses(BeginHead(), key);
    KeyedMarkParses(EndHead(), key);
    HeadsDiffer(b);
    HeadsDiffer(e);
    assert MarkerTail()[4] == '=';
    assert b[|b| - 1] == '=' && e[|e| - 1] == '=';
    TrimNoSpace(b);
    TrimNoSpace(e);
  }

  lemma KeyedMarkIff(line: string, head: string, key: string)
    ensures KeyedMark(line, head) == Keyed(key) <==> IsKey(key) && line == head + key + MarkerTail()
    ensures KeyedMark(line, head) != Legacy
  {
    if IsKey(key) && line == head + key + MarkerTail() {
      KeyedMarkParses(head, key);
    }
    if KeyedMark(line, head) == Keyed(key) {
      assert line == line[..|head|] + line[|head|..|line| - |MarkerTail()|] + line[|line| - |MarkerTail()|..];
    }
  }

  /** Exactly the begin markers open a block, but for white space around them, and the end markers close one. */
  lemma OpensIff(line: string, key: string)
    ensures Opens(line) == Keyed(key) <==> IsKey(key) && TrimSpace(line) == BeginMarker(key)
    ensures Closes(line) == Keyed(key) <==> IsKey(key) && TrimSpace(line) == EndMarker(key)
    ensures Opens(line) == Legacy <==> TrimSpace(line) == LegacyBegin()
    ensures Closes(line) == Legacy <==> TrimSpace(line) == LegacyEnd()
  {
    var t := TrimSpace(line);
    KeyedMarkIff(t, BeginHead(), key);
    KeyedMarkIff(t, EndHead(), key);
    HeadsDiffer(t);
    if t == BeginMarker(key) {
      assert t[..|BeginHead()|] == BeginHead();
    }
    if t == EndMarker(key) {
      assert t[..|EndHead()|] == EndHead();
    }
  }

  lemma StemText()
    ensures Stem() == "# === XPANEL-CRON "
  {
  }

  /** The markers, written out. */
  lemma MarkerTexts(key: string)
    ensures BeginMarker(key) == "# === XPANEL-CRON BEGIN (managed:" + key + ") ==="
    ensures EndMarker(key) == "# === XPANEL-CRON END (managed:" + key + ") ==="
  {
    StemText();
  }

  lemma LegacyTexts()
    ensures LegacyBegin() == "# === XPANEL-CRON BEGIN (managed, do not edit) ==="
    ensures LegacyEnd() == "# === XPANEL-CRON END ==="
  {
    StemText();
    assert "BEGIN (managed" + ", do not edit) ===" == "BEGIN (managed, do not edit) ===";
    ConcatAssoc(Stem(), "BEGIN (managed", ", do not edit) ===");
  }

  lemma MarkersAreLines(key: string)
    requires IsKey(key)
    ensures '\n' !in BeginMarker(key) && '\n' !in EndMarker(key)
  {
    assert '\n' !in key;
    assert '\n' !in Stem() && '\n' !in "BEGIN (managed:" && '\n' !in "END (managed:" && '\n' !in MarkerTail();
  }

  /** Every marker starts with '#'. */
  lemma MarkersStartWithHash(line: string)
    requires line == [] || line[0] != '#'
    ensures ParseCronBegin(line) == NoMark && ParseCronEnd(line) == NoMark
  {
    HeadsDiffer(line);
  }

  // ---------- Stripping ----------

  /** The lines left by one pass. `mode` is the block being dropped, or NoMark outside of any. */
  function Keep(lines: seq<string>, key: string, mode: Mark): seq<string> {
    if lines == [] then []
    else if mode.NoMark? then
      var b := Opens(lines[0]);
      if b == Legacy || b == Keyed(key) then Keep(lines[1..], key, b)
      else [lines[0]] + Keep(lines[1..], key, NoMark)
    else Keep(lines[1..], key, if Closes(lines[0]) == mode then NoMark else mode)
  }

  /** The mode after the pass. */
  function KeepMode(lines: seq<string>, key: string, mode: Mark): Mark {
    if lines == [] then mode
    else if mode.NoMark? then
      var b := Opens(lines[0]);
      KeepMode(lines[1..], key, if b == Legacy || b == Keyed(key) then b else NoMark)
    else KeepMode(lines[1..], key, if Closes(lines[0]) == mode then NoMark else mode)
  }

  function Strip(existing: string, key: string): string {
    Join(Keep(Split(existing, '\n'), key, NoMark), '\n')
  }

  /** The block that the two flags of stripManagedBlock stand for. */
  function ModeOf(stripping: bool, stripLegacy: bool, key: string): Mark {
    if !stripping then NoMark else if stripLegacy then Legacy else Keyed(key)
  }

  lemma KeepHead(out: seq<string>, lines: seq<string>, i: nat, key: string, mode: Mark)
    requires i < |lines|
    ensures var b := Opens(lines[i]);
            out + Keep(lines[i..], key, mode) ==
            if mode.NoMark? && b != Legacy && b != Keyed(key) then (out + [lines[i]]) + Keep(lines[i + 1..], key, NoMark)
            else if mode.NoMark? then out + Keep(lines[i + 1..], key, b)
            else out + Keep(lines[i + 1..], key, if Closes(lines[i]) == mode then NoMark else mode)
  {
    assert lines[i..][0] == lines[i] && lines[i..][1..] == lines[i + 1..];
    ConcatAssoc(out, [lines[i]], Keep(lines[i + 1..], key, NoMark));
  }

  /** stripManagedBlock, with the source's two flags. */
  method StripManagedBlock(existing: string, key: string) returns (stripped: string)
    ensures stripped == Strip(existing, key)
  {
    var lines := Split(existing, '\n');
    var out: seq<string> := [];
    var stripping, stripLegacy := false, false;
    var i := 0;
    while i < |lines|
      invariant 0 <= i <= |lines|
      invariant Keep(lines, key, NoMark) == out + Keep(lines[i..], key, ModeOf(stripping, stripLegacy, key))
    {
      KeepHead(out, lines, i, key, ModeOf(stripping, stripLegacy, key));
      var t := TrimSpace(lines[i]);
      if !stripping {
        var b := ParseCronBegin(t);
        if b.Legacy? || (b.Keyed? && b.key == key) {
          stripping, stripLegacy := true, b.Legacy?;
        } else {
          out := out + [lines[i]];
        }
      } else {
        var e := ParseCronEnd(t);
        if (stripLegacy && e.Legacy?) || (!stripLegacy && e.Keyed? && e.key == key) {
          stripping := false;
        }
      }
      i := i + 1;
    }
    assert lines[i..] == [] && out + [] == out;
    stripped := Join(out, '\n');
  }

  /** The mode after one line, and whether the line is kept. */
  function NextMode(line: string, key: string, mode: Mark): Mark {
    if mode.NoMark? then if Opens(line) == Legacy || Opens(line) == Keyed(key) then Opens(line) else NoMark
    else if Closes(line) == mode then NoMark else mode
  }

  lemma KeepCons(line: string, rest: seq<string>, key: string, mode: Mark)
    ensures var next := NextMode(line, key, mode);
            Keep([line] + rest, key, mode) ==
            (if mode.NoMark? && next.NoMark? then [line] else []) + Keep(rest, key, next) &&
            KeepMode([line] + rest, key, mode) == KeepMode(rest, key, next)
  {
    assert ([line] + rest)[1..] == rest;
  }

  lemma {:induction false} KeepConcat(a: seq<string>, b: seq<string>, key: string, mode: Mark)
    ensures Keep(a + b, key, mode) == Keep(a, key, mode) + Keep(b, key, KeepMode(a, key, mode))
    ensures KeepMode(a + b, key, mode) == KeepMode(b, key, KeepMode(a, key, mode))
  {
    if a == [] {
      assert a + b == b;
    } else {
      var line, rest := a[0], a[1..];
      var next := NextMode(line, key, mode);
      var head := if mode.NoMark? && next.NoMark? then [line] else [];
      assert a == [line] + rest && a + b == [line] + (rest + b);
      KeepConcat(rest, b, key, next);
      KeepCons(line, rest, key, mode);
      KeepCons(line, rest + b, key, mode);
      ConcatAssoc(head, Keep(rest, key, next), Keep(b, key, KeepMode(rest, key, next)));
    }
  }

  /** No line that would start a block to be dropped. */
  predicate Unopened(lines: seq<string>, key: string) {
    forall i :: 0 <= i < |lines| ==> Opens(lines[i]) != Legacy && Opens(lines[i]) != Keyed(key)
  }

  lemma {:induction false} KeepUnopened(lines: seq<string>, key: string)
    requires Unopened(lines, key)
    ensures Keep(lines, key, NoMark) == lines && KeepMode(lines, key, NoMark) == NoMark
  {
    if lines != [] {
      KeepUnopened(lines[1..], key);
      assert Opens(lines[0]) != Legacy;
    }
  }

  lemma {:induction false} KeepIsUnopened(lines: seq<string>, key: string, mode: Mark)
    ensures Unopened(Keep(lines, key, mode), key)
    ensures forall l :: l in Keep(lines, key, mode) ==> l in lines
  {
    if lines != [] {
      var o := Opens(lines[0]);
      var next := if mode.NoMark? then (if o == Legacy || o == Keyed(key) then o else NoMark)
                  else if Closes(lines[0]) == mode then NoMark else mode;
      KeepIsUnopened(lines[1..], key, next);
    }
  }

  /** The lines of the joined text: joining no line at all still leaves one empty line. */
  lemma SplitOfJoin(lines: seq<string>)
    requires forall l :: l in lines ==> '\n' !in l
    ensures Split(Join(lines, '\n'), '\n') == if lines == [] then [[]] else lines
  {
    if lines != [] {
      SplitJoin(lines, '\n');
    }
  }

  lemma EmptyLineOpensNothing()
    ensures Opens([]) == NoMark && Closes([]) == NoMark
  {
    MarkersStartWithHash([]);
  }

  /** Stripping twice is stripping once, for any text at all. */
  lemma StripIdempotent(existing: string, key: string)
    ensures Strip(Strip(existing, key), key) == Strip(existing, key)
  {
    var lines := Split(existing, '\n');
    var kept := Keep(lines, key, NoMark);
    SplitPartsPlain(existing, '\n');
    KeepIsUnopened(lines, key, NoMark);
    SplitOfJoin(kept);
    EmptyLineOpensNothing();
    if kept == [] {
      KeepUnopened([[]], key);
    } else {
      KeepUnopened(kept, key);
    }
  }

  // ---------- Rendering ----------

  /** `^[0-9*,/A-Za-z-]{1,64}$`. */
  predicate CronFieldChar(c: char) {
    '0' <= c <= '9' || 'A' <= c <= 'Z' || 'a' <= c <= 'z' || c == '*' || c == ',' || c == '/' || c == '-'
  }

  predicate CronFieldOk(f: string) {
    1 <= |f| <= 64 && forall i :: 0 <= i < |f| ==> CronFieldChar(f[i])
  }

  predicate ValidCronExpr(expr: string) {
    var fields := Fields(TrimSpace(expr));
    |fields| == 5 && forall f :: f in fields ==> CronFieldOk(f)
  }

  predicate ValidCronCommand(command: string) {
    var cmd := TrimSpace(command);
    cmd != "" && forall i :: 0 <= i < |cmd| ==> cmd[i] != '%' && cmd[i] >= ' '
  }

  datatype CronJobLine = CronJobLine(id: int, expr: string, command: string, comment: string)

  function SanitizeComment(s: string): (r: string)
    ensures '\n' !in r
  {
    if s == [] then [] else [if s[0] < ' ' then ' ' else s[0]] + SanitizeComment(s[1..])
  }

  function CommentLine(j: CronJobLine): string { "# " + SanitizeComment(j.comment) }
  function CommandLine(j: CronJobLine): string { TrimSpace(j.expr) + " " + TrimSpace(j.command) }

  function JobText(j: CronJobLine): string {
    (if j.comment != "" then CommentLine(j) + "\n" else "") + CommandLine(j) + "\n"
  }

  function JobsText(jobs: seq<CronJobLine>): string {
    if jobs == [] then "" else JobText(jobs[0]) + JobsText(jobs[1..])
  }

  function Render(key: string, jobs: seq<CronJobLine>): string {
    BeginMarker(key) + "\n" + JobsText(jobs) + EndMarker(key) + "\n"
  }

  lemma {:induction false} JobsTextSnoc(jobs: seq<CronJobLine>, j: CronJobLine)
    ensures JobsText(jobs + [j]) == JobsText(jobs) + JobText(j)
  {
    if jobs == [] {
      assert jobs + [j] == [j];
    } else {
      JobsTextSnoc(jobs[1..], j);
      assert (jobs + [j])[1..] == jobs[1..] + [j];
      ConcatAssoc(JobText(jobs[0]), JobsText(jobs[1..]), JobText(j));
    }
  }

  lemma RenderStep(head: string, jobs: seq<CronJobLine>, i: nat)
    requires i < |jobs|
    ensures head + JobsText(jobs[..i]) + JobText(jobs[i]) == head + JobsText(jobs[..i + 1])
  {
    assert jobs[..i + 1] == jobs[..i] + [jobs[i]];
    JobsTextSnoc(jobs[..i], jobs[i]);
  }

  /** RenderManagedBlock: the builder loop. */
  method RenderManagedBlock(key: string, jobs: seq<CronJobLine>) returns (text: string)
    ensures text == Render(key, jobs)
  {
    var head := BeginMarker(key) + "\n";
    var b := head;
    for i := 0 to |jobs|
      invariant b == head + JobsText(jobs[..i])
    {
      var j := jobs[i];
      var line := "";
      if j.comment != "" {
        line := "# " + SanitizeComment(j.comment) + "\n";
      }
      line := line + (TrimSpace(j.expr) + " " + TrimSpace(j.command)) + "\n";
      assert line == JobText(j);
      RenderStep(head, jobs, i);
      b := b + line;
    }
    assert jobs[..|jobs|] == jobs;
    text := b + EndMarker(key) + "\n";
  }

  /** The lines of one rendered job, split as the crontab will be when it is read again. */
  function JobLines(j: CronJobLine): seq<string> {
    (if j.comment != "" then [CommentLine(j)] else []) + Split(CommandLine(j), '\n')
  }

  function BodyLines(jobs: seq<CronJobLine>): seq<string> {
    if jobs == [] then [] else JobLines(jobs[0]) + BodyLines(jobs[1..])
  }

  function BlockLines(key: string, jobs: seq<CronJobLine>): seq<string> {
    [BeginMarker(key)] + BodyLines(jobs) + [EndMarker(key)]
  }

  lemma SplitLine(a: string, b: string)
    requires '\n' !in a
    ensures Split(a + "\n" + b, '\n') == [a] + Split(b, '\n')
  {
    SplitConcat(a, b, '\n');
    SplitPlain(a, '\n');
  }

  lemma SplitLines(a: string, b: string, tail: string)
    ensures Split((b + "\n") + tail, '\n') == Split(b, '\n') + Split(tail, '\n')
    ensures '\n' !in a ==> Split((a + "\n" + (b + "\n")) + tail, '\n') == ([a] + Split(b, '\n')) + Split(tail, '\n')
  {
    SplitConcat(b, tail, '\n');
    if '\n' !in a {
      SplitLine(a, (b + "\n") + tail);
      ConcatAssoc(a + "\n", b + "\n", tail);
    }
  }

  lemma SplitJobText(j: CronJobLine, tail: string)
    ensures Split(JobText(j) + tail, '\n') == JobLines(j) + Split(tail, '\n')
  {
    var comment, command := CommentLine(j), CommandLine(j);
    SplitLines(comment, command, tail);
    if j.comment != "" {
      ConcatAssoc(comment + "\n", command, "\n");
      assert JobText(j) == comment + "\n" + (command + "\n");
      assert '\n' !in comment;
      assert JobLines(j) == [comment] + Split(command, '\n');
    } else {
      assert JobText(j) == command + "\n";
      assert JobLines(j) == Split(command, '\n');
    }
  }

  lemma {:induction false} SplitJobsText(jobs: seq<CronJobLine>, rest: string)
    ensures Split(JobsText(jobs) + rest, '\n') == BodyLines(jobs) + Split(rest, '\n')
  {
    if jobs == [] {
      assert JobsText(jobs) + rest == rest;
    } else {
      var first, others := JobText(jobs[0]), JobsText(jobs[1..]);
      SplitJobsText(jobs[1..], rest);
      SplitJobText(jobs[0], others + rest);
      ConcatAssoc(first, others, rest);
      ConcatAssoc(JobLines(jobs[0]), BodyLines(jobs[1..]), Split(rest, '\n'));
    }
  }

  lemma SplitRender(key: string, jobs: seq<CronJobLine>)
    requires IsKey(key)
    ensures Split(Render(key, jobs), '\n') == BlockLines(key, jobs) + [[]]
  {
    MarkersAreLines(key);
    var rest := EndMarker(key) + "\n" + "";
    assert Render(key, jobs) == BeginMarker(key) + "\n" + (JobsText(jobs) + rest);
    SplitLine(BeginMarker(key), JobsText(jobs) + rest);
    SplitJobsText(jobs, rest);
    SplitLine(EndMarker(key), "");
  }

  // ---------- Merging ----------

  /** `strings.TrimRight(s, "\n")`. */
  function TrimNewlines(s: string): string {
    if s != [] && s[|s| - 1] == '\n' then TrimNewlines(s[..|s| - 1]) else s
  }

  function MergeManagedBlock(existing: string, managed: string, key: string): string {
    var stripped := TrimNewlines(Strip(existing, key));
    if stripped == "" then managed else stripped + "\n" + managed
  }

  function DropEmptyTail(lines: seq<string>): (r: seq<string>)
    ensures r <= lines
    ensures r == [] || r[|r| - 1] != []
    ensures forall l :: l in lines[|r|..] ==> l == []
  {
    if lines != [] && lines[|lines| - 1] == [] then
      var r := DropEmptyTail(lines[..|lines| - 1]);
      assert lines[|r|..] == lines[..|lines| - 1][|r|..] + [lines[|lines| - 1]];
      r
    else lines
  }

  lemma TrimNewlinesNoop(s: string)
    requires s == [] || s[|s| - 1] != '\n'
    ensures TrimNewlines(s) == s
  {
  }

  /** Trimming the joined text drops exactly its empty lines at the end. */
  lemma {:induction false} TrimJoined(lines: seq<string>)
    requires forall l :: l in lines ==> '\n' !in l
    ensures TrimNewlines(Join(lines, '\n')) == Join(DropEmptyTail(lines), '\n')
  {
    if lines != [] {
      var n := |lines| - 1;
      var s := Join(lines, '\n');
      if lines[n] == [] {
        TrimJoined(lines[..n]);
        if n > 0 {
          JoinConcat(lines[..n], lines[n..], '\n');
          assert lines == lines[..n] + lines[n..];
          assert s == Join(lines[..n], '\n') + ['\n'];
          assert s[..|s| - 1] == Join(lines[..n], '\n');
        }
      } else {
        JoinEnd(lines, '\n');
        assert lines[n] in lines;
        TrimNewlinesNoop(s);
      }
    }
  }

  /** The lines that survive a merge ahead of the new block. */
  function Survivors(existing: string, key: string): seq<string> {
    DropEmptyTail(Keep(Split(existing, '\n'), key, NoMark))
  }

  lemma SurvivorsPlain(existing: string, key: string)
    ensures forall l :: l in Survivors(existing, key) ==> '\n' !in l
    ensures Unopened(Survivors(existing, key), key)
    ensures TrimNewlines(Strip(existing, key)) == Join(Survivors(existing, key), '\n')
    ensures (Survivors(existing, key) == []) <==> (Join(Survivors(existing, key), '\n') == "")
  {
    var lines := Split(existing, '\n');
    SplitPartsPlain(existing, '\n');
    KeepIsUnopened(lines, key, NoMark);
    TrimJoined(Keep(lines, key, NoMark));
    if Survivors(existing, key) != [] {
      JoinEnd(Survivors(existing, key), '\n');
    }
  }

  /** A merged crontab is, line by line, the survivors followed by the new block. */
  lemma MergedLines(existing: string, key: string, jobs: seq<CronJobLine>)
    requires IsKey(key)
    ensures Split(MergeManagedBlock(existing, Render(key, jobs), key), '\n')
            == Survivors(existing, key) + BlockLines(key, jobs) + [[]]
  {
    SurvivorsPlain(existing, key);
    SplitRender(key, jobs);
    var kept := Survivors(existing, key);
    if kept == [] {
      assert kept + BlockLines(key, jobs) == BlockLines(key, jobs);
    } else {
      SplitConcat(Join(kept, '\n'), Render(key, jobs), '\n');
      SplitJoin(kept, '\n');
      assert kept + BlockLines(key, jobs) + [[]] == kept + (BlockLines(key, jobs) + [[]]);
    }
  }
}

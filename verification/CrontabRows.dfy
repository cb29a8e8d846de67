/** internal/modules/cron/cron.go: the rows of the job table, and the crontab lines that stand for them. */
module CrontabRows {
  import opened Text
  import opened Crontab
  import opened CrontabLaws
  import opened CrontabComments

  /** The job rows as the panel's database hands them out. */
  datatype Job = Job(id: int, expr: string, command: string, comment: string)

  function JobLine(j: Job): CronJobLine { CronJobLine(j.id, j.expr, j.command, j.comment) }

  function JobLinesOf(jobs: seq<Job>): seq<CronJobLine> {
    if jobs == [] then [] else JobLinesOf(jobs[..|jobs| - 1]) + [JobLine(jobs[|jobs| - 1])]
  }

  // ---------- What a reader of the crontab makes of the lines ----------

  /** What follows the first n fields of a line. */
  function AfterFields(line: string, n: nat): string
    decreases n
  {
    var t := TrimLeft(line);
    if n == 0 then t else AfterFields(t[TokenLen(t)..], n - 1)
  }

  /** What comes before a percent sign is the command; the rest would be its input. */
  function BeforePercent(s: string): string {
    match IndexByte(s, '%')
    case Some(i) => s[..i]
    case None => s
  }

  /** The line runs the command of the job at the times of its expression. */
  predicate RunsJob(line: string, j: Job) {
    |Fields(line)| >= 5 && Fields(line)[..5] == Fields(j.expr) &&
    BeforePercent(AfterFields(line, 5)) == TrimSpace(j.command)
  }

  /** The line is the comment, with blanks for control characters. */
  predicate ShowsComment(line: string, comment: string) {
    |line| == |comment| + 2 && line[0] == '#' && line[1] == ' ' &&
    forall i :: 0 <= i < |comment| ==> line[i + 2] == if comment[i] < ' ' then ' ' else comment[i]
  }

  function LinesFor(j: Job): nat {
    if j.comment == "" then 1 else 2
  }

  /** The comment, if there is one, and then the job. */
  predicate ShowsJob(lines: seq<string>, j: Job) {
    |lines| == LinesFor(j) && (j.comment != "" ==> ShowsComment(lines[0], j.comment)) && RunsJob(lines[|lines| - 1], j)
  }

  /** The lines are those of the rows in order. */
  predicate ShowsJobs(lines: seq<string>, rows: seq<Job>)
    decreases |rows|
  {
    if rows == [] then lines == []
    else
      var n := LinesFor(rows[0]);
      |lines| >= n && ShowsJob(lines[..n], rows[0]) && ShowsJobs(lines[n..], rows[1..])
  }

  predicate ShowsBlock(block: seq<string>, key: string, rows: seq<Job>) {
    |block| >= 2 && block[0] == BeginMarker(key) && block[|block| - 1] == EndMarker(key) &&
    ShowsJobs(block[1..|block| - 1], rows)
  }

  // ---------- Fields and what follows them ----------

  lemma TokenAfter(t: string, rest: string, n: nat)
    requires t != [] && NoSpace(t) && (rest == [] || IsSpace(rest[0]))
    ensures AfterFields(t + rest, n + 1) == AfterFields(rest, n)
  {
    TokenLenOfToken(t, rest);
    assert (t + rest)[|t|..] == rest && !IsSpace((t + rest)[0]);
  }

  lemma FirstToken(s: string) returns (t: string, rest: string)
    requires s != [] && !IsSpace(s[0])
    ensures s == t + rest && t != [] && NoSpace(t) && (rest == [] || IsSpace(rest[0])) && |rest| < |s|
  {
    var n := TokenLen(s);
    t, rest := s[..n], s[n..];
  }

  lemma {:induction false} FieldsConcat(a: string, b: string)
    requires b == [] || IsSpace(b[0])
    ensures Fields(a + b) == Fields(a) + Fields(b)
    decreases |a|
  {
    if a == [] {
      assert a + b == b;
    } else if IsSpace(a[0]) {
      assert (a + b)[1..] == a[1..] + b;
      FieldsConcat(a[1..], b);
    } else {
      var t, rest := FirstToken(a);
      FieldsConcat(rest, b);
      assert Fields(a) == [t] + Fields(rest) by { FieldsToken(t, rest); }
      assert Fields(t + (rest + b)) == [t] + Fields(rest + b) by { FieldsToken(t, rest + b); }
      ConcatAssoc(t, rest, b);
      ConcatAssoc([t], Fields(rest), Fields(b));
    }
  }

  lemma {:induction false} AfterAllFields(a: string, b: string)
    requires b == [] || IsSpace(b[0])
    ensures AfterFields(a + b, |Fields(a)|) == TrimLeft(b)
    decreases |a|
  {
    if a == [] {
      assert a + b == b;
    } else if IsSpace(a[0]) {
      assert (a + b)[1..] == a[1..] + b;
      AfterAllFields(a[1..], b);
    } else {
      var t, rest := FirstToken(a);
      AfterAllFields(rest, b);
      assert |Fields(a)| == |Fields(rest)| + 1 by { FieldsToken(t, rest); }
      TokenAfter(t, rest + b, |Fields(rest)|);
      ConcatAssoc(t, rest, b);
    }
  }

  lemma {:induction false} FieldsBlank(s: string)
    requires forall i :: 0 <= i < |s| ==> IsSpace(s[i])
    ensures Fields(s) == []
  {
    if s != [] {
      FieldsBlank(s[1..]);
    }
  }

  lemma {:induction false} FieldsTrimLeft(s: string)
    ensures Fields(TrimLeft(s)) == Fields(s)
  {
    if s != [] && IsSpace(s[0]) {
      FieldsTrimLeft(s[1..]);
    }
  }

  lemma {:induction false} FieldsTrimRight(s: string)
    ensures Fields(TrimRight(s)) == Fields(s)
  {
    if s != [] && IsSpace(s[|s| - 1]) {
      var front, last := s[..|s| - 1], [s[|s| - 1]];
      FieldsTrimRight(front);
      FieldsConcat(front, last);
      FieldsBlank(last);
      assert s == front + last;
    }
  }

  lemma FieldsTrim(s: string)
    ensures Fields(TrimSpace(s)) == Fields(s)
  {
    FieldsTrimRight(TrimLeft(s));
    FieldsTrimLeft(s);
  }

  // ---------- The lines of a job ----------

  /** Its expression does not go over several lines. */
  predicate OneLine(j: Job) {
    '\n' !in TrimSpace(j.expr)
  }

  lemma RowRuns(j: Job)
    requires ValidJob(JobLine(j))
    ensures RunsJob(CommandLine(JobLine(j)), j)
    ensures OneLine(j) <==> '\n' !in CommandLine(JobLine(j))
  {
    var e, c := TrimSpace(j.expr), TrimSpace(j.command);
    FieldsTrim(j.expr);
    TrimSpaceEnds(j.command);
    assert CommandLine(JobLine(j)) == e + (" " + c);
    FieldsConcat(e, " " + c);
    AfterAllFields(e, " " + c);
    assert (" " + c)[1..] == c;
    assert TrimLeft(" " + c) == TrimLeft(c) == c;
    assert '\n' !in c;
  }

  lemma {:induction false} SanitizedChars(s: string)
    ensures var r := SanitizeComment(s);
            |r| == |s| && forall i :: 0 <= i < |s| ==> r[i] == if s[i] < ' ' then ' ' else s[i]
  {
    if s != [] {
      SanitizedChars(s[1..]);
    }
  }

  lemma CommentShows(j: Job)
    ensures ShowsComment(CommentLine(JobLine(j)), j.comment)
  {
    SanitizedChars(j.comment);
  }

  lemma {:induction false} JobLinesCons(rows: seq<Job>)
    requires rows != []
    ensures JobLinesOf(rows) == [JobLine(rows[0])] + JobLinesOf(rows[1..])
  {
    if |rows| == 1 {
      assert rows[..0] == [] && rows[1..] == [];
    } else {
      var n := |rows| - 1;
      JobLinesCons(rows[..n]);
      assert rows[..n][1..] == rows[1..][..n - 1];
      ConcatAssoc([JobLine(rows[0])], JobLinesOf(rows[1..][..n - 1]), [JobLine(rows[n])]);
    }
  }

  /** The lines of the first row are in front. */
  lemma BodyCons(rows: seq<Job>)
    requires rows != []
    ensures BodyLines(JobLinesOf(rows)) == JobLines(JobLine(rows[0])) + BodyLines(JobLinesOf(rows[1..]))
  {
    JobLinesCons(rows);
    assert ([JobLine(rows[0])] + JobLinesOf(rows[1..]))[1..] == JobLinesOf(rows[1..]);
  }

  predicate AllRows(rows: seq<Job>) {
    forall j :: j in rows ==> ValidJob(JobLine(j))
  }

  predicate AllOneLine(rows: seq<Job>) {
    forall j :: j in rows ==> OneLine(j)
  }

  lemma RowShows(j: Job)
    requires ValidJob(JobLine(j)) && OneLine(j)
    ensures ShowsJob(JobLines(JobLine(j)), j)
  {
    RowRuns(j);
    SplitPlain(CommandLine(JobLine(j)), '\n');
    CommentShows(j);
  }

  lemma ShowsCons(head: seq<string>, tail: seq<string>, rows: seq<Job>)
    requires rows != [] && ShowsJob(head, rows[0]) && ShowsJobs(tail, rows[1..])
    ensures ShowsJobs(head + tail, rows)
  {
    assert (head + tail)[..|head|] == head && (head + tail)[|head|..] == tail;
  }

  lemma {:induction false} RowsShow(rows: seq<Job>)
    requires AllRows(rows) && AllOneLine(rows)
    ensures ShowsJobs(BodyLines(JobLinesOf(rows)), rows)
    decreases |rows|
  {
    if rows != [] {
      assert rows[0] in rows;
      RowShows(rows[0]);
      RowsShow(rows[1..]);
      BodyCons(rows);
      ShowsCons(JobLines(JobLine(rows[0])), BodyLines(JobLinesOf(rows[1..])), rows);
    }
  }

  /** How many lines the rows should have. */
  function LinesForAll(rows: seq<Job>): nat {
    if rows == [] then 0 else LinesFor(rows[0]) + LinesForAll(rows[1..])
  }

  lemma {:induction false} ShownLines(lines: seq<string>, rows: seq<Job>)
    requires ShowsJobs(lines, rows)
    ensures |lines| == LinesForAll(rows)
    decreases |rows|
  {
    if rows != [] {
      ShownLines(lines[LinesFor(rows[0])..], rows[1..]);
    }
  }

  lemma {:induction false} SplitOne(s: string, sep: char)
    ensures |Split(s, sep)| == 1 <==> sep !in s
  {
    if s != [] {
      SplitOne(s[1..], sep);
    }
  }

  lemma {:induction false} BrokenLines(rows: seq<Job>)
    requires AllRows(rows)
    ensures |BodyLines(JobLinesOf(rows))| >= LinesForAll(rows)
    ensures |BodyLines(JobLinesOf(rows))| == LinesForAll(rows) ==> AllOneLine(rows)
    decreases |rows|
  {
    if rows != [] {
      assert rows[0] in rows;
      BodyCons(rows);
      RowRuns(rows[0]);
      SplitOne(CommandLine(JobLine(rows[0])), '\n');
      BrokenLines(rows[1..]);
    }
  }

  /** Valid rows are rendered so that each reads back as itself, if and only if no expression contains a line break. */
  lemma BlockShowsRowsIff(key: string, rows: seq<Job>)
    requires AllRows(rows)
    ensures ShowsBlock(BlockLines(key, JobLinesOf(rows)), key, rows) <==> AllOneLine(rows)
  {
    var body := BodyLines(JobLinesOf(rows));
    BlockBody(BeginMarker(key), body, EndMarker(key));
    if AllOneLine(rows) {
      RowsShow(rows);
    } else if ShowsJobs(body, rows) {
      ShownLines(body, rows);
      BrokenLines(rows);
    }
  }

  lemma BlockBody(first: string, body: seq<string>, last: string)
    ensures var block := [first] + body + [last];
            |block| == |body| + 2 && block[0] == first && block[|block| - 1] == last && block[1..|block| - 1] == body
  {
  }

  /** A comment that prints no marker which disturbs the block of the key. */
  predicate HarmlessComment(comment: string, key: string) {
    comment != "" ==> HarmlessLine("# " + SanitizeComment(comment), key)
  }

  lemma {:induction false} LinesOfRows(rows: seq<Job>, key: string)
    requires AllRows(rows) && forall j :: j in rows ==> HarmlessComment(j.comment, key)
    ensures AllValid(JobLinesOf(rows))
    ensures forall l :: l in JobLinesOf(rows) && l.comment != "" ==> HarmlessLine(CommentLine(l), key)
  {
    if rows != [] {
      LinesOfRows(rows[..|rows| - 1], key);
      assert rows[|rows| - 1] in rows;
    }
  }

  /** Main theorem: after a merge of valid rows with harmless comments the block of the key, read line by line, is its
      begin marker, for each row in order the comment, if any, and one line with the times of the expression and
      then the command, and its end marker - if and only if no expression contains a line break. */
  lemma RowsAreScheduledIff(existing: string, key: string, rows: seq<Job>)
    requires WellFormed(existing) && IsKey(key) && AllRows(rows)
    requires forall j :: j in rows ==> HarmlessComment(j.comment, key)
    ensures var merged := MergeManagedBlock(existing, Render(key, JobLinesOf(rows)), key);
            ShowsBlock(Block(merged, Keyed(key)), key, rows) <==> AllOneLine(rows)
  {
    LinesOfRows(rows, key);
    OnlyCommentsSpoil(key, JobLinesOf(rows));
    MergeViews(existing, key, JobLinesOf(rows));
    BlockShowsRowsIff(key, rows);
  }

  lemma TwoLines(x: string, y: string)
    requires x != "" && !IsSpace(x[0]) && y != "" && !IsSpace(y[|y| - 1]) && |Fields(x)| + |Fields(y)| == 5
    requires forall f :: f in Fields(x) || f in Fields(y) ==> CronFieldOk(f)
    ensures ValidCronExpr(x + ("\n" + y)) && '\n' in TrimSpace(x + ("\n" + y))
  {
    var e := x + ("\n" + y);
    TrimNoSpace(e);
    FieldsConcat(x, "\n" + y);
    assert ("\n" + y)[1..] == y;
    assert e[|x|] == '\n';
  }

  lemma CharThen(a: char, rest: string)
    requires !IsSpace(a)
    ensures Fields([a] + (" " + rest)) == [[a]] + Fields(rest)
  {
    FieldsToken([a], " " + rest);
    assert (" " + rest)[1..] == rest;
  }

  lemma FieldsOfTwo(a: char, b: char)
    requires !IsSpace(a) && !IsSpace(b)
    ensures Fields([a, ' ', b]) == [[a], [b]]
  {
    CharThen(a, [b]);
    FieldsToken([b], []);
    assert [b] + [] == [b] && [a] + (" " + [b]) == [a, ' ', b];
  }

  lemma FieldsOfThree(a: char, b: char, c: char)
    requires !IsSpace(a) && !IsSpace(b) && !IsSpace(c)
    ensures Fields([a, ' ', b, ' ', c]) == [[a], [b], [c]]
  {
    FieldsOfTwo(b, c);
    CharThen(a, [b, ' ', c]);
    assert [a] + (" " + [b, ' ', c]) == [a, ' ', b, ' ', c];
  }

  /** The validator of expressions is documented to refuse line breaks, but passes one between two fields. */
  lemma LineBreakPasses()
    ensures ValidCronExpr("0 3 *" + ("\n" + "* *")) && '\n' in TrimSpace("0 3 *" + ("\n" + "* *"))
  {
    FieldsOfThree('0', '3', '*');
    FieldsOfTwo('*', '*');
    TwoLines("0 3 *", "* *");
  }
}

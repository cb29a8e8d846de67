/** internal/modules/cron/schedule.go: the names of months and weekdays, as a calendar has them. */
module CronNames {
  import opened Text
  import opened CronSchedule

  /** The word in any letter case; the dotted capital I counts as an i. */
  predicate Spelled(name: string, word: string) {
    |name| == |word| &&
    forall i :: 0 <= i < |word| ==>
                  name[i] == word[i] || ('A' <= name[i] <= 'Z' && name[i] as int + 32 == word[i] as int) ||
                  (word[i] == 'i' && name[i] == '\U{0130}')
  }

  predicate IsDayName(name: string, d: int) {
    (d == 0 && Spelled(name, "sun")) || (d == 1 && Spelled(name, "mon")) || (d == 2 && Spelled(name, "tue")) ||
    (d == 3 && Spelled(name, "wed")) || (d == 4 && Spelled(name, "thu")) || (d == 5 && Spelled(name, "fri")) ||
    (d == 6 && Spelled(name, "sat"))
  }

  predicate IsMonthName(name: string, m: int) {
    (m == 1 && Spelled(name, "jan")) || (m == 2 && Spelled(name, "feb")) || (m == 3 && Spelled(name, "mar")) ||
    (m == 4 && Spelled(name, "apr")) || (m == 5 && Spelled(name, "may")) || (m == 6 && Spelled(name, "jun")) ||
    (m == 7 && Spelled(name, "jul")) || (m == 8 && Spelled(name, "aug")) || (m == 9 && Spelled(name, "sep")) ||
    (m == 10 && Spelled(name, "oct")) || (m == 11 && Spelled(name, "nov")) || (m == 12 && Spelled(name, "dec"))
  }

  lemma SpelledIff(name: string, word: string)
    requires IsWord(word)
    ensures ToLower(name) == word <==> Spelled(name, word)
  {
    if ToLower(name) == word {
      forall i | 0 <= i < |word|
        ensures name[i] == word[i] || ('A' <= name[i] <= 'Z' && name[i] as int + 32 == word[i] as int) ||
                (word[i] == 'i' && name[i] == '\U{0130}')
      {
        assert ToLower(name)[i] == ToLowerChar(name[i]);
      }
    }
  }

  /** The words are numbered in order. */
  lemma {:induction false} NumberedIs(words: seq<string>, first: int, w: string, v: int)
    requires forall i, j :: 0 <= i < j < |words| ==> words[i] != words[j]
    ensures w in NumberedFrom(words, first) && NumberedFrom(words, first)[w] == v <==>
            first <= v < first + |words| && words[v - first] == w
  {
    if words != [] {
      var n := |words| - 1;
      NumberedIs(words[..n], first, w, v);
    }
  }

  lemma DistinctDays()
    ensures forall i, j :: 0 <= i < j < |DowWords()| ==> DowWords()[i] != DowWords()[j]
    ensures forall i :: 0 <= i < |DowWords()| ==> IsWord(DowWords()[i])
  {
  }

  lemma DayNameIff(name: string, d: int)
    ensures ToLower(name) in DowNames() && DowNames()[ToLower(name)] == d <==> IsDayName(name, d)
  {
    DistinctDays();
    NumberedIs(DowWords(), 0, ToLower(name), d);
    var words := DowWords();
    if 0 <= d < 7 {
      SpelledIff(name, words[d]);
    }
  }

  lemma DistinctMonths()
    ensures forall i, j :: 0 <= i < j < |MonthWords()| ==> MonthWords()[i] != MonthWords()[j]
    ensures forall i :: 0 <= i < |MonthWords()| ==> IsWord(MonthWords()[i])
  {
  }

  lemma MonthNameIff(name: string, m: int)
    ensures ToLower(name) in MonthNames() && MonthNames()[ToLower(name)] == m <==> IsMonthName(name, m)
  {
    DistinctMonths();
    NumberedIs(MonthWords(), 1, ToLower(name), m);
    if 1 <= m <= 12 {
      SpelledIff(name, MonthWords()[m - 1]);
    }
  }

  lemma NameText(name: string, names: Names, lo: int, hi: int)
    requires NamesFit(names, lo, hi) && ToLower(name) in names
    ensures name != "" && NoSpace(name) && ',' !in name && '/' !in name && '-' !in name && '*' !in name
  {
    forall i | 0 <= i < |name|
      ensures 'A' <= name[i] <= 'Z' || 'a' <= name[i] <= 'z' || name[i] == '\U{0130}'
    {
      LowerIsName(name, names, lo, hi, i);
    }
  }

  /** A name alone is a field of one value. */
  lemma NamedField(name: string, names: Names, lo: int, hi: int)
    requires NamesFit(names, lo, hi) && ToLower(name) in names
    ensures ParseField(name, lo, hi, names) == Some({names[ToLower(name)]})
  {
    NameText(name, names, lo, hi);
    TrimNoSpace(name);
    var v := names[ToLower(name)];
    assert ParseBase(name, lo, hi, names) == Some((v, v));
    SingleField(name, Item(v, v, 1), lo, hi, names);
    assert Progression(v, v, 1) == {v};
  }

  lemma AnyValueField(lo: int, hi: int, names: Names, v: int) returns (values: set<int>)
    requires lo <= v <= hi
    ensures ParseField("*", lo, hi, names) == Some(values) && v in values
  {
    values := Values(Item(lo, hi, 1));
    StarField(lo, hi, names);
    AllValues(lo, hi, v);
  }

  /** An expression that restricts the month or the weekday alone. */
  lemma StarsBut(month: string, dow: string, months: set<int>, days: set<int>, t: Instant)
    requires IsInstant(t) && month != "" && NoSpace(month) && dow != "" && NoSpace(dow)
    requires ParseField(month, 1, 12, MonthNames()) == Some(months) && ParseField(dow, 0, 7, DowNames()) == Some(days)
    ensures CronMatches(FiveFields("*", "*", "*", month, dow), t) <==>
            t.month in months && t.weekday in FoldSunday(days)
  {
    var minutes := AnyValueField(0, 59, map[], t.minute);
    var hours := AnyValueField(0, 23, map[], t.hour);
    var dom := AnyValueField(1, 31, map[], t.day);
    var s := CronSpec(minutes, hours, dom, months, FoldSunday(days), true, dow == "*");
    FieldsOfBuilt("*", "*", "*", month, dow);
    ParsedFields(["*", "*", "*", month, dow], MonthNames(), DowNames(), s, days);
  }

  lemma DayText(name: string)
    ensures "* * * * " + name == FiveFields("*", "*", "*", "*", name)
  {
    JoinConcat(["*", "*", "*", "*"], [name], ' ');
    assert ["*", "*", "*", "*"] + [name] == ["*", "*", "*", "*", name];
    assert Join(["*", "*", "*", "*"], ' ') == "* * * *";
  }

  lemma MonthText(name: string)
    ensures "* * * " + name + " *" == FiveFields("*", "*", "*", name, "*")
  {
    JoinConcat(["*", "*", "*"], [name, "*"], ' ');
    assert ["*", "*", "*"] + [name, "*"] == ["*", "*", "*", name, "*"];
    assert Join(["*", "*", "*"], ' ') == "* * *" && Join([name, "*"], ' ') == name + " *";
  }

  lemma OneDayField(name: string, names: Names, d: int)
    requires NamesFit(names, 0, 7) && ToLower(name) in names && names[ToLower(name)] == d
    ensures name != "" && NoSpace(name) && ParseField(name, 0, 7, names) == Some({d})
  {
    NamedField(name, names, 0, 7);
    NameText(name, names, 0, 7);
  }

  lemma OneMonthField(name: string, names: Names, m: int)
    requires NamesFit(names, 1, 12) && ToLower(name) in names && names[ToLower(name)] == m
    ensures name != "" && NoSpace(name) && ParseField(name, 1, 12, names) == Some({m})
  {
    NamedField(name, names, 1, 12);
    NameText(name, names, 1, 12);
  }

  lemma OneDayMatches(name: string, d: int, t: Instant)
    requires IsInstant(t) && 0 <= d < 7 && name != "" && NoSpace(name) && ParseField(name, 0, 7, DowNames()) == Some({d})
    ensures CronMatches(FiveFields("*", "*", "*", "*", name), t) <==> t.weekday == d
  {
    var months := AnyValueField(1, 12, MonthNames(), t.month);
    StarsBut("*", name, months, {d}, t);
  }

  lemma DayNameField(name: string, d: int)
    requires IsDayName(name, d)
    ensures 0 <= d < 7 && name != "" && NoSpace(name) && ParseField(name, 0, 7, DowNames()) == Some({d})
  {
    DowNamesFit();
    DayNameIff(name, d);
    OneDayField(name, DowNames(), d);
  }

  /** Main theorem on weekdays: an expression that names one matches on that day of the week and on no other. */
  lemma DayNameMatches(name: string, d: int, t: Instant)
    requires IsInstant(t) && IsDayName(name, d)
    ensures CronMatches("* * * * " + name, t) <==> t.weekday == d
  {
    DayNameField(name, d);
    OneDayMatches(name, d, t);
    DayText(name);
  }

  /** And on months. */
  lemma MonthNameMatches(name: string, m: int, t: Instant)
    requires IsInstant(t) && IsMonthName(name, m)
    ensures CronMatches("* * * " + name + " *", t) <==> t.month == m
  {
    assert name != "" && NoSpace(name) && ParseField(name, 1, 12, MonthNames()) == Some({m}) by {
      MonthNamesFit();
      MonthNameIff(name, m);
      OneMonthField(name, MonthNames(), m);
    }
    var days := AnyValueField(0, 7, DowNames(), t.weekday);
    assert 0 in days by {
      var all := AnyValueField(0, 7, DowNames(), 0);
    }
    StarsBut(name, "*", {m}, days, t);
    MonthText(name);
  }
}

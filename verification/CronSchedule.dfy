/** internal/modules/cron/schedule.go: friendly schedules, the 5-field expressions they compile to, and
    the parser and matcher for such expressions. */
module CronSchedule {
  import opened Text
  import Crontab

  // ---------- One field: parsing ----------

  type Names = map<string, int>

  /** The table that numbers these words from `first` on. */
  function NumberedFrom(words: seq<string>, first: int): Names {
    if words == [] then map[]
    else NumberedFrom(words[..|words| - 1], first)[words[|words| - 1] := first + |words| - 1]
  }

  function MonthWords(): seq<string> {
    ["jan", "feb", "mar", "apr", "may", "jun", "jul", "aug", "sep", "oct", "nov", "dec"]
  }

  function DowWords(): seq<string> {
    ["sun", "mon", "tue", "wed", "thu", "fri", "sat"]
  }

  function MonthNames(): Names { NumberedFrom(MonthWords(), 1) }
  function DowNames(): Names { NumberedFrom(DowWords(), 0) }

  /** `unicode.ToLower`, exact on every letter whose lower case is an ASCII letter. */
  function ToLowerChar(c: char): char {
    if 'A' <= c <= 'Z' then c + ' ' else if c == '\U{0130}' then 'i' else if c == '\U{212A}' then 'k' else c
  }

  function ToLower(s: string): string {
    seq(|s|, i requires 0 <= i < |s| => ToLowerChar(s[i]))
  }

  function AtoiName(s: string, lo: int, hi: int, names: Names): Option<int> {
    var t := TrimSpace(s);
    if ToLower(t) in names then Some(names[ToLower(t)])
    else match Atoi(t)
      case Some(v) => if v < lo || v > hi then None else Some(v)
      case None => None
  }

  /** What one list element selects: a range of values, every `step`-th of them. */
  datatype Item = Item(first: int, last: int, step: int)

  /** The range named by an element without its step. */
  function ParseBase(s: string, lo: int, hi: int, names: Names): Option<(int, int)> {
    if s == "*" then Some((lo, hi))
    else match IndexByte(s, '-')
      case Some(dash) =>
        if dash > 0 then
          var a, b := AtoiName(s[..dash], lo, hi, names), AtoiName(s[dash + 1..], lo, hi, names);
          if a.None? || b.None? || a.value > b.value then None else Some((a.value, b.value))
        else ParseValue(s, lo, hi, names)
      case None => ParseValue(s, lo, hi, names)
  }

  function ParseValue(s: string, lo: int, hi: int, names: Names): Option<(int, int)> {
    match AtoiName(s, lo, hi, names)
    case Some(v) => Some((v, v))
    case None => None
  }

  function ParsePart(part: string, lo: int, hi: int, names: Names): Option<Item> {
    match IndexByte(part, '/')
    case Some(slash) =>
      var st := Atoi(part[slash + 1..]);
      if st.None? || st.value < 1 then None
      else ItemOf(ParseBase(part[..slash], lo, hi, names), st.value)
    case None => ItemOf(ParseBase(part, lo, hi, names), 1)
  }

  function ItemOf(bounds: Option<(int, int)>, step: int): Option<Item> {
    match bounds
    case Some((a, b)) => Some(Item(a, b, step))
    case None => None
  }

  /** The arithmetic progression from v up to hi. */
  function Progression(v: int, hi: int, step: int): set<int>
    requires step >= 1
    decreases hi - v
  {
    if v > hi then {} else {v} + Progression(v + step, hi, step)
  }

  function Values(item: Item): set<int> {
    if item.step < 1 then {} else Progression(item.first, item.last, item.step)
  }

  function ParseParts(parts: seq<string>, lo: int, hi: int, names: Names): Option<set<int>> {
    if parts == [] then Some({})
    else
      var front := ParseParts(parts[..|parts| - 1], lo, hi, names);
      var item := ParsePart(TrimSpace(parts[|parts| - 1]), lo, hi, names);
      if front.None? || item.None? then None else Some(front.value + Values(item.value))
  }

  function ParseField(field: string, lo: int, hi: int, names: Names): Option<set<int>> {
    ParseParts(Split(field, ','), lo, hi, names)
  }

  lemma EmptyPartFails(lo: int, hi: int, names: Names)
    requires "" !in names
    ensures ParsePart("", lo, hi, names) == None
  {
    assert TrimSpace("") == "" && ToLower("") == "";
  }

  lemma {:induction false} PartsFail(parts: seq<string>, n: nat, lo: int, hi: int, names: Names)
    requires n <= |parts| && ParseParts(parts[..n], lo, hi, names) == None
    ensures ParseParts(parts, lo, hi, names) == None
    decreases |parts| - n
  {
    if n < |parts| {
      assert parts[..n + 1][..n] == parts[..n];
      PartsFail(parts, n + 1, lo, hi, names);
    } else {
      assert parts[..n] == parts;
    }
  }

  lemma {:induction false} ValuesOfItem(first: int, last: int, step: int)
    requires step >= 1
    ensures first <= last ==> first in Progression(first, last, step)
    ensures forall x :: x in Progression(first, last, step) ==> first <= x <= last
    decreases last - first
  {
    if first <= last {
      ValuesOfItem(first + step, last, step);
    }
  }

  lemma ParseBaseOrdered(s: string, lo: int, hi: int, names: Names)
    requires lo <= hi
    ensures var b := ParseBase(s, lo, hi, names); b.Some? ==> b.value.0 <= b.value.1
  {
  }

  /** The inner loop of parseField: mark every step-th value. */
  method FillRange(before: set<int>, rlo: int, rhi: int, step: int) returns (out: set<int>)
    requires step >= 1
    ensures out == before + Progression(rlo, rhi, step)
  {
    out := before;
    var v := rlo;
    while v <= rhi
      invariant before + Progression(rlo, rhi, step) == out + Progression(v, rhi, step)
      decreases rhi - v
    {
      out := out + {v};
      v := v + step;
    }
  }

  /** The body of parseField's loop for one list element. */
  method ParseElement(part: string, lo: int, hi: int, names: Names) returns (r: Option<Item>)
    requires "" !in names
    ensures r == ParsePart(part, lo, hi, names)
  {
    if part == "" {
      EmptyPartFails(lo, hi, names);
      return None;
    }
    var step := 1;
    var base := part;
    var slash := IndexByte(part, '/');
    if slash.Some? {
      var st := Atoi(part[slash.value + 1..]);
      if st.None? || st.value < 1 { return None; }
      step, base := st.value, part[..slash.value];
    }
    var bounds := ParseBase(base, lo, hi, names);
    if bounds.None? { return None; }
    return Some(Item(bounds.value.0, bounds.value.1, step));
  }

  lemma PartOrdered(part: string, lo: int, hi: int, names: Names)
    requires lo <= hi
    ensures var r := ParsePart(part, lo, hi, names); r.Some? ==> r.value.step >= 1 && r.value.first <= r.value.last
  {
    var slash := IndexByte(part, '/');
    ParseBaseOrdered(if slash.Some? then part[..slash.value] else part, lo, hi, names);
  }

  lemma ParsePartsStep(parts: seq<string>, i: nat, out: set<int>, lo: int, hi: int, names: Names)
    requires i < |parts| && ParseParts(parts[..i], lo, hi, names) == Some(out)
    ensures ParseParts(parts[..i + 1], lo, hi, names) ==
            var item := ParsePart(TrimSpace(parts[i]), lo, hi, names);
            if item.Some? then Some(out + Values(item.value)) else None
  {
    assert parts[..i + 1][..i] == parts[..i] && parts[..i + 1][i] == parts[i];
  }

  /** parseField: the loop over the list elements. */
  method ParseFieldLoop(field: string, lo: int, hi: int, names: Names) returns (r: Option<set<int>>)
    requires lo <= hi && "" !in names
    ensures r == ParseField(field, lo, hi, names)
  {
    var out: set<int> := {};
    var parts := Split(field, ',');
    var i := 0;
    while i < |parts|
      invariant i <= |parts| && ParseParts(parts[..i], lo, hi, names) == Some(out)
      invariant i > 0 ==> out != {}
    {
      ParsePartsStep(parts, i, out, lo, hi, names);
      var part := TrimSpace(parts[i]);
      PartOrdered(part, lo, hi, names);
      var item := ParseElement(part, lo, hi, names);
      i := i + 1;
      if item.None? {
        PartsFail(parts, i, lo, hi, names);
        return None;
      }
      ValuesOfItem(item.value.first, item.value.last, item.value.step);
      out := FillRange(out, item.value.first, item.value.last, item.value.step);
    }
    assert parts[..|parts|] == parts;
    if out == {} { return None; }
    return Some(out);
  }

  // ---------- One field: meaning ----------

  /** A progression, without iteration. */
  predicate InItem(item: Item, v: int) {
    item.step >= 1 && item.first <= v <= item.last && (v - item.first) % item.step == 0
  }

  lemma StepDown(n: int, step: int)
    requires step >= 1 && n > 0
    ensures n % step == 0 <==> n >= step && (n - step) % step == 0
  {
    var q := n / step;
    assert n == q * step + n % step;
    if n >= step {
      assert n - step == (q - 1) * step + n % step;
      ModOf(n - step, q - 1, step, n % step);
    } else {
      assert n % step == n by { ModOf(n, 0, step, n); }
    }
  }

  lemma MulAtLeast(k: int, step: int)
    requires step >= 1 && k >= 1
    ensures k * step >= step
  {
  }

  lemma ModOf(n: int, q: int, step: int, r: int)
    requires step >= 1 && n == q * step + r && 0 <= r < step
    ensures n % step == r
  {
    var p := n / step;
    assert n == p * step + n % step;
    assert (q - p) * step == q * step - p * step;
    assert (p - q) * step == p * step - q * step;
    if q > p {
      MulAtLeast(q - p, step);
    } else if q < p {
      MulAtLeast(p - q, step);
    }
  }

  lemma {:induction false} ProgressionIs(v: int, hi: int, step: int, x: int)
    requires step >= 1
    ensures x in Progression(v, hi, step) <==> v <= x <= hi && (x - v) % step == 0
    decreases hi - v
  {
    if v <= hi {
      ProgressionIs(v + step, hi, step, x);
      if x > v {
        StepDown(x - v, step);
        assert x - v - step == x - (v + step);
      } else if x == v {
        ModOf(0, 0, step, 0);
      }
    }
  }

  // The counter of the loop is a 64-bit integer in the source.

  /** A sum of two non-negative 64-bit integers, as the machine has it. */
  function Wrapped(n: int): int {
    if n > MAX_INT then n - 2 * (MAX_INT + 1) else n
  }

  /** What the counter is after k turns. */
  function Counter(first: int, step: int, k: nat): int {
    if k == 0 then first else Wrapped(Counter(first, step, k - 1) + step)
  }

  lemma {:induction false} CounterExact(first: int, step: int, k: nat)
    requires 0 <= first && step >= 1 && first + k * step <= MAX_INT
    ensures Counter(first, step, k) == first + k * step
  {
    if k > 0 {
      assert k * step == (k - 1) * step + step;
      CounterExact(first, step, k - 1);
    }
  }

  /** How many values there are from first to last. */
  function Turns(first: int, last: int, step: int): nat
    requires first <= last && step >= 1
  {
    (last - first) / step + 1
  }

  lemma TurnsFit(first: int, last: int, step: int)
    requires first <= last && step >= 1
    ensures var n := Turns(first, last, step); first + (n - 1) * step <= last < first + n * step
  {
    var q := (last - first) / step;
    assert (q + 1) * step == q * step + step;
  }

  lemma FewerTurns(k: nat, n: nat, step: int)
    requires k <= n && step >= 1
    ensures k * step <= n * step
  {
  }

  /** The machine's loop takes the values of the progression, and then it leaves if and only if the next value fits
      into 64 bits; otherwise it goes on from a negative value. A step up to 2^63 - 1 - last is always fine. */
  lemma LoopIsExactIff(first: int, last: int, step: int)
    requires 0 <= first <= last <= MAX_INT && 1 <= step <= MAX_INT
    ensures var n := Turns(first, last, step);
            (forall k: nat :: k < n ==> Counter(first, step, k) == first + k * step <= last) &&
            (Counter(first, step, n) > last <==> first + n * step <= MAX_INT) &&
            (first + n * step > MAX_INT ==> Counter(first, step, n) < 0) &&
            (step <= MAX_INT - last ==> first + n * step <= MAX_INT)
  {
    var n := Turns(first, last, step);
    TurnsFit(first, last, step);
    forall k: nat | k < n
      ensures Counter(first, step, k) == first + k * step <= last
    {
      FewerTurns(k, n - 1, step);
      CounterExact(first, step, k);
    }
    assert n * step == (n - 1) * step + step;
    assert Counter(first, step, n) == Wrapped(Counter(first, step, n - 1) + step);
  }

  /** A single value: a name of the field, in any case, or a number within its bounds. */
  predicate SpellsValue(s: string, v: int, lo: int, hi: int, names: Names) {
    var t := TrimSpace(s);
    if ToLower(t) in names then v == names[ToLower(t)] else Atoi(t) == Some(v) && lo <= v <= hi
  }

  /** The grammar of a list element without its step: `*`, a value, or an ordered range. */
  ghost predicate SpellsBase(s: string, first: int, last: int, lo: int, hi: int, names: Names) {
    || (s == "*" && first == lo && last == hi)
    || (first == last && SpellsValue(s, first, lo, hi, names))
    || (first <= last && exists x, y ::
          s == x + "-" + y && x != "" && '-' !in x &&
          SpellsValue(x, first, lo, hi, names) && SpellsValue(y, last, lo, hi, names))
  }

  /** The grammar of a list element: a base, or a base, a slash and a step of at least 1. */
  ghost predicate SpellsItem(part: string, item: Item, lo: int, hi: int, names: Names) {
    || ('/' !in part && item.step == 1 && SpellsBase(part, item.first, item.last, lo, hi, names))
    || exists b, t ::
         part == b + "/" + t && '/' !in b && Atoi(t) == Some(item.step) && item.step >= 1 &&
         SpellsBase(b, item.first, item.last, lo, hi, names)
  }

  /** Names are lower-case ASCII words that stand for values of the field. */
  predicate NamesFit(names: Names, lo: int, hi: int) {
    forall n :: n in names ==>
                  n != "" && lo <= names[n] <= hi &&
                  forall i :: 0 <= i < |n| ==> 'a' <= n[i] <= 'j' || 'l' <= n[i] <= 'z'
  }

  lemma AtoiChars(s: string)
    requires Atoi(s).Some?
    ensures s != [] && (IsDigit(s[0]) || s[0] == '+' || s[0] == '-')
    ensures forall i :: 1 <= i < |s| ==> IsDigit(s[i])
  {
    if s[0] == '+' || s[0] == '-' {
      assert forall i :: 1 <= i < |s| ==> s[i] == s[1..][i - 1];
    }
  }

  /** A letter that folds to an ASCII letter other than k is that letter, or the dotted capital I. */
  lemma LowerIsName(s: string, names: Names, lo: int, hi: int, i: nat)
    requires NamesFit(names, lo, hi) && ToLower(s) in names && i < |s|
    ensures 'A' <= s[i] <= 'Z' || 'a' <= s[i] <= 'z' || s[i] == '\U{0130}'
  {
    assert ToLower(s)[i] == ToLowerChar(s[i]);
  }

  /** The values that the parser reads from text that has a dash after its first character: none. */
  lemma DashedIsNoValue(s: string, lo: int, hi: int, names: Names)
    requires NamesFit(names, lo, hi) && s != "" && !IsSpace(s[0])
    requires '-' in s[1..]
    ensures AtoiName(s, lo, hi, names) == None
  {
    var t := TrimSpace(s);
    TrimRightSlice(s);
    assert TrimLeft(s) == s;
    var i :| 1 <= i < |s| && s[i] == '-';
    DashStays(s, i);
    assert t[i] == '-';
    if ToLower(t) in names {
      LowerIsName(t, names, lo, hi, i);
    }
    if Atoi(t).Some? {
      AtoiChars(t);
    }
  }

  lemma {:induction false} DashStays(s: string, i: nat)
    requires i < |s| && !IsSpace(s[i])
    ensures i < |TrimRight(s)|
  {
    if IsSpace(s[|s| - 1]) {
      DashStays(s[..|s| - 1], i);
    }
  }

  lemma AtoiNameSpells(s: string, v: int, lo: int, hi: int, names: Names)
    ensures AtoiName(s, lo, hi, names) == Some(v) <==> SpellsValue(s, v, lo, hi, names)
  {
  }

  lemma CutUnique(s: string, c: char, x: string, y: string)
    requires s == x + [c] + y && c !in x
    ensures IndexByte(s, c) == Some(|x|) && s[..|x|] == x && s[|x| + 1..] == y
  {
    IndexByteOf(x, c, y);
  }

  lemma RangeSpells(s: string, x: string, y: string, first: int, last: int, lo: int, hi: int, names: Names)
    requires s == x + "-" + y && x != "" && '-' !in x
    requires NamesFit(names, lo, hi) && !IsSpace(s[0])
    ensures SpellsBase(s, first, last, lo, hi, names) <==>
            first <= last && SpellsValue(x, first, lo, hi, names) && SpellsValue(y, last, lo, hi, names)
  {
    assert s[1..][|x| - 1] == '-';
    DashedIsNoValue(s, lo, hi, names);
    AtoiNameSpells(s, first, lo, hi, names);
    assert s != "*" by { assert s[|x|] == '-' && |s| > 1; }
    forall x', y' | s == x' + "-" + y' && '-' !in x'
      ensures x' == x && y' == y
    {
      CutUnique(s, '-', x', y');
      CutUnique(s, '-', x, y);
    }
  }

  lemma PlainSpells(s: string, first: int, last: int, lo: int, hi: int, names: Names)
    requires s != "*" && (IndexByte(s, '-') == None || IndexByte(s, '-') == Some(0))
    ensures SpellsBase(s, first, last, lo, hi, names) <==> first == last && SpellsValue(s, first, lo, hi, names)
  {
    forall x', y' | s == x' + "-" + y' && '-' !in x'
      ensures x' == ""
    {
      CutUnique(s, '-', x', y');
    }
  }

  /** The parser reads a base exactly as the grammar says. */
  lemma ParseBaseSpells(s: string, first: int, last: int, lo: int, hi: int, names: Names)
    requires NamesFit(names, lo, hi) && (s == "" || !IsSpace(s[0]))
    ensures ParseBase(s, lo, hi, names) == Some((first, last)) <==> SpellsBase(s, first, last, lo, hi, names)
  {
    var dash := IndexByte(s, '-');
    if s == "*" {
      StarIsNoValue(first, lo, hi, names);
    } else if dash.Some? && dash.value > 0 {
      var x, y := s[..dash.value], s[dash.value + 1..];
      assert s == x + "-" + y;
      RangeSpells(s, x, y, first, last, lo, hi, names);
      AtoiNameSpells(x, first, lo, hi, names);
      AtoiNameSpells(y, last, lo, hi, names);
    } else {
      PlainSpells(s, first, last, lo, hi, names);
      AtoiNameSpells(s, first, lo, hi, names);
    }
  }

  lemma StarIsNoValue(v: int, lo: int, hi: int, names: Names)
    requires NamesFit(names, lo, hi)
    ensures !SpellsValue("*", v, lo, hi, names)
    ensures forall x, y :: "*" != x + "-" + y
  {
    TrimNoSpace("*");
    if ToLower("*") in names {
      LowerIsName("*", names, lo, hi, 0);
    }
    forall x, y
      ensures "*" != x + "-" + y
    {
      assert (x + "-" + y)[|x|] == '-';
    }
  }

  lemma StepSpells(part: string, b: string, t: string, item: Item, lo: int, hi: int, names: Names)
    requires part == b + "/" + t && '/' !in b
    ensures SpellsItem(part, item, lo, hi, names) <==>
            Atoi(t) == Some(item.step) && item.step >= 1 && SpellsBase(b, item.first, item.last, lo, hi, names)
  {
    assert part[|b|] == '/';
    forall b', t' | part == b' + "/" + t' && '/' !in b'
      ensures b' == b && t' == t
    {
      CutUnique(part, '/', b', t');
      CutUnique(part, '/', b, t);
    }
  }

  /** The parser reads a list element exactly as the grammar says. */
  lemma ParsePartSpells(part: string, item: Item, lo: int, hi: int, names: Names)
    requires NamesFit(names, lo, hi) && (part == "" || !IsSpace(part[0]))
    ensures ParsePart(part, lo, hi, names) == Some(item) <==> SpellsItem(part, item, lo, hi, names)
  {
    var slash := IndexByte(part, '/');
    if slash.Some? {
      var b, t := part[..slash.value], part[slash.value + 1..];
      assert part == b + "/" + t;
      StepSpells(part, b, t, item, lo, hi, names);
      ParseBaseSpells(b, item.first, item.last, lo, hi, names);
    } else {
      ParseBaseSpells(part, item.first, item.last, lo, hi, names);
      forall b', t' | '/' !in b'
        ensures IndexByte(b' + "/" + t', '/').Some?
      {
        IndexByteOf(b', '/', t');
      }
    }
  }

  /** Element by element, the list is spelled by these items. */
  ghost predicate SpellsList(parts: seq<string>, items: seq<Item>, lo: int, hi: int, names: Names) {
    |items| == |parts| && forall i :: 0 <= i < |parts| ==> SpellsItem(TrimSpace(parts[i]), items[i], lo, hi, names)
  }

  predicate InAny(items: seq<Item>, v: int) {
    exists i | 0 <= i < |items| :: InItem(items[i], v)
  }

  /** What the comma list in `field` denotes. */
  ghost predicate Denotes(field: string, items: seq<Item>, lo: int, hi: int, names: Names) {
    SpellsList(Split(field, ','), items, lo, hi, names)
  }

  lemma ValuesAreInItem(item: Item, v: int)
    ensures v in Values(item) <==> InItem(item, v)
  {
    if item.step >= 1 {
      ProgressionIs(item.first, item.last, item.step, v);
    }
  }

  lemma SpellsFront(parts: seq<string>, items: seq<Item>, lo: int, hi: int, names: Names)
    requires parts != [] && SpellsList(parts, items, lo, hi, names)
    ensures SpellsList(parts[..|parts| - 1], items[..|parts| - 1], lo, hi, names)
    ensures SpellsItem(TrimSpace(parts[|parts| - 1]), items[|parts| - 1], lo, hi, names)
  {
  }

  lemma UnionWithItem(front: set<int>, items: seq<Item>, item: Item)
    requires forall v :: v in front <==> InAny(items, v)
    ensures forall v :: v in front + Values(item) <==> InAny(items + [item], v)
  {
    forall v
      ensures v in front + Values(item) <==> InAny(items + [item], v)
    {
      ValuesAreInItem(item, v);
      InAnySnoc(items, item, v);
    }
  }

  lemma ParsePartsLast(parts: seq<string>, front: set<int>, item: Item, lo: int, hi: int, names: Names)
    requires parts != [] && ParseParts(parts[..|parts| - 1], lo, hi, names) == Some(front)
    requires ParsePart(TrimSpace(parts[|parts| - 1]), lo, hi, names) == Some(item)
    ensures ParseParts(parts, lo, hi, names) == Some(front + Values(item))
  {
  }

  lemma TrimmedPartSpells(raw: string, item: Item, lo: int, hi: int, names: Names)
    requires NamesFit(names, lo, hi)
    ensures ParsePart(TrimSpace(raw), lo, hi, names) == Some(item) <==> SpellsItem(TrimSpace(raw), item, lo, hi, names)
  {
    TrimSpaceEnds(raw);
    ParsePartSpells(TrimSpace(raw), item, lo, hi, names);
  }

  /** The set that the parser returns for a list spelled by these items. */
  lemma {:induction false} PartsSpelled(parts: seq<string>, items: seq<Item>, lo: int, hi: int, names: Names)
    returns (values: set<int>)
    requires NamesFit(names, lo, hi) && SpellsList(parts, items, lo, hi, names)
    ensures ParseParts(parts, lo, hi, names) == Some(values)
    ensures forall v :: v in values <==> InAny(items, v)
    decreases |parts|
  {
    if parts == [] {
      values := {};
    } else {
      var n := |parts| - 1;
      SpellsFront(parts, items, lo, hi, names);
      var shorter := items[..n];
      var last := items[n];
      FrontAndLast(items);
      var front := PartsSpelled(parts[..n], shorter, lo, hi, names);
      values := front + Values(last);
      assert forall v :: v in values <==> InAny(items, v) by {
        UnionWithItem(front, shorter, last);
      }
      assert ParseParts(parts, lo, hi, names) == Some(values) by {
        TrimmedPartSpells(parts[n], last, lo, hi, names);
        ParsePartsLast(parts, front, last, lo, hi, names);
      }
    }
  }

  lemma {:induction false} PartsParsed(parts: seq<string>, lo: int, hi: int, names: Names) returns (items: seq<Item>)
    requires NamesFit(names, lo, hi) && ParseParts(parts, lo, hi, names).Some?
    ensures SpellsList(parts, items, lo, hi, names)
  {
    if parts == [] {
      items := [];
    } else {
      var n := |parts| - 1;
      var front := PartsParsed(parts[..n], lo, hi, names);
      var item := ParsePart(TrimSpace(parts[n]), lo, hi, names).value;
      TrimmedPartSpells(parts[n], item, lo, hi, names);
      items := front + [item];
    }
  }

  lemma InAnySnoc(items: seq<Item>, item: Item, v: int)
    ensures InAny(items + [item], v) <==> InAny(items, v) || InItem(item, v)
  {
    var all := items + [item];
    if InAny(items, v) {
      var i :| 0 <= i < |items| && InItem(items[i], v);
      assert InItem(all[i], v);
    }
    if InItem(item, v) {
      assert InItem(all[|items|], v);
    }
  }

  /** Main theorem on fields, first half: a comma list of the grammar is accepted, and the set returned is
      exactly the union of the progressions that its items denote. */
  lemma DenotedFieldParses(field: string, items: seq<Item>, lo: int, hi: int, names: Names)
    requires NamesFit(names, lo, hi) && Denotes(field, items, lo, hi, names)
    ensures ParseField(field, lo, hi, names).Some?
    ensures forall v :: v in ParseField(field, lo, hi, names).value <==> InAny(items, v)
  {
    var values := PartsSpelled(Split(field, ','), items, lo, hi, names);
  }

  /** Second half: nothing else is accepted. */
  lemma ParsedFieldDenotes(field: string, lo: int, hi: int, names: Names) returns (items: seq<Item>)
    requires NamesFit(names, lo, hi) && ParseField(field, lo, hi, names).Some?
    ensures Denotes(field, items, lo, hi, names)
  {
    items := PartsParsed(Split(field, ','), lo, hi, names);
  }

  lemma ParseBaseBounds(s: string, lo: int, hi: int, names: Names)
    requires NamesFit(names, lo, hi) && lo <= hi
    ensures var b := ParseBase(s, lo, hi, names); b.Some? ==> lo <= b.value.0 <= b.value.1 <= hi
  {
  }

  /** The set is never empty and stays inside the bounds of the field. */
  lemma {:induction false} ParsePartsBounds(parts: seq<string>, lo: int, hi: int, names: Names)
    requires NamesFit(names, lo, hi) && lo <= hi
    ensures var r := ParseParts(parts, lo, hi, names);
            r.Some? ==> (parts != [] ==> r.value != {}) && forall v :: v in r.value ==> lo <= v <= hi
  {
    if parts != [] && ParseParts(parts, lo, hi, names).Some? {
      var n := |parts| - 1;
      ParsePartsBounds(parts[..n], lo, hi, names);
      var part := TrimSpace(parts[n]);
      var slash := IndexByte(part, '/');
      ParseBaseBounds(if slash.Some? then part[..slash.value] else part, lo, hi, names);
      var item := ParsePart(part, lo, hi, names).value;
      ValuesOfItem(item.first, item.last, item.step);
    }
  }

  // ---------- Expressions ----------

  datatype CronSpec = CronSpec(minute: set<int>, hour: set<int>, dom: set<int>, month: set<int>, dow: set<int>,
                               domStar: bool, dowStar: bool)

  /** A minute of the calendar; weekday 0 is Sunday. */
  datatype Instant = Instant(minute: int, hour: int, day: int, month: int, weekday: int)

  predicate IsInstant(t: Instant) {
    0 <= t.minute <= 59 && 0 <= t.hour <= 23 && 1 <= t.day <= 31 && 1 <= t.month <= 12 && 0 <= t.weekday <= 6
  }

  function ParseFields(f: seq<string>, months: Names, days: Names): Option<CronSpec>
    requires |f| == 5
  {
    var minute, hour := ParseField(f[0], 0, 59, map[]), ParseField(f[1], 0, 23, map[]);
    var dom, month := ParseField(f[2], 1, 31, map[]), ParseField(f[3], 1, 12, months);
    var dow := ParseField(f[4], 0, 7, days);
    if minute.None? || hour.None? || dom.None? || month.None? || dow.None? then None
    else Some(CronSpec(minute.value, hour.value, dom.value, month.value, FoldSunday(dow.value),
                       TrimSpace(f[2]) == "*", TrimSpace(f[4]) == "*"))
  }

  /** Sunday may be written 7 and is kept as 0. */
  function FoldSunday(dow: set<int>): set<int> {
    if 7 in dow then dow + {0} - {7} else dow
  }

  function ParseCron(expr: string): Option<CronSpec> {
    var f := Fields(TrimSpace(expr));
    if |f| != 5 then None else ParseFields(f, MonthNames(), DowNames())
  }

  predicate Matches(s: CronSpec, t: Instant) {
    t.minute in s.minute && t.hour in s.hour && t.month in s.month &&
    if !s.domStar && !s.dowStar then t.day in s.dom || t.weekday in s.dow
    else t.day in s.dom && t.weekday in s.dow
  }

  predicate CronMatches(expr: string, t: Instant) {
    var s := ParseCron(expr);
    s.Some? && Matches(s.value, t)
  }

  /** The five comma lists of an expression. */
  datatype Meaning = Meaning(minute: seq<Item>, hour: seq<Item>, dom: seq<Item>, month: seq<Item>, dow: seq<Item>)

  ghost predicate FieldsDenote(f: seq<string>, m: Meaning, months: Names, days: Names) {
    |f| == 5 && Denotes(f[0], m.minute, 0, 59, map[]) && Denotes(f[1], m.hour, 0, 23, map[]) &&
    Denotes(f[2], m.dom, 1, 31, map[]) && Denotes(f[3], m.month, 1, 12, months) &&
    Denotes(f[4], m.dow, 0, 7, days)
  }

  ghost predicate ExprDenotes(f: seq<string>, m: Meaning) {
    FieldsDenote(f, m, MonthNames(), DowNames())
  }

  predicate IsWord(n: string) {
    |n| == 3 && forall i :: 0 <= i < 3 ==> 'a' <= n[i] <= 'j' || 'l' <= n[i] <= 'z'
  }

  lemma {:induction false} NumberedFit(words: seq<string>, first: int, hi: int)
    requires forall i :: 0 <= i < |words| ==> IsWord(words[i])
    requires first + |words| <= hi + 1
    ensures NamesFit(NumberedFrom(words, first), first, hi)
  {
    if words != [] {
      NumberedFit(words[..|words| - 1], first, hi);
    }
  }

  lemma MonthNamesFit()
    ensures NamesFit(MonthNames(), 1, 12)
  {
    var words := MonthWords();
    assert IsWord(words[0]);
    assert IsWord(words[1]);
    assert IsWord(words[2]);
    assert IsWord(words[3]);
    assert IsWord(words[4]);
    assert IsWord(words[5]);
    assert IsWord(words[6]);
    assert IsWord(words[7]);
    assert IsWord(words[8]);
    assert IsWord(words[9]);
    assert IsWord(words[10]);
    assert IsWord(words[11]);
    NumberedFit(words, 1, 12);
  }

  lemma DowNamesFit()
    ensures NamesFit(DowNames(), 0, 7)
  {
    var words := DowWords();
    assert IsWord(words[0]);
    assert IsWord(words[1]);
    assert IsWord(words[2]);
    assert IsWord(words[3]);
    assert IsWord(words[4]);
    assert IsWord(words[5]);
    assert IsWord(words[6]);
    NumberedFit(words, 0, 7);
  }

  /** The calendar rule: the days match together unless both day fields are restricted, when either
      suffices; 7 stands for Sunday as 0 does. */
  predicate MeaningHolds(m: Meaning, domStar: bool, dowStar: bool, t: Instant) {
    var day := InAny(m.dom, t.day);
    var weekday := InAny(m.dow, t.weekday) || (t.weekday == 0 && InAny(m.dow, 7));
    InAny(m.minute, t.minute) && InAny(m.hour, t.hour) && InAny(m.month, t.month) &&
    if domStar || dowStar then day && weekday else day || weekday
  }

  lemma FieldsAccepted(f: seq<string>, months: Names, days: Names) returns (m: Meaning)
    requires |f| == 5 && NamesFit(months, 1, 12) && NamesFit(days, 0, 7)
    requires ParseFields(f, months, days).Some?
    ensures FieldsDenote(f, m, months, days)
  {
    var a := ParsedFieldDenotes(f[0], 0, 59, map[]);
    var b := ParsedFieldDenotes(f[1], 0, 23, map[]);
    var c := ParsedFieldDenotes(f[2], 1, 31, map[]);
    var d := ParsedFieldDenotes(f[3], 1, 12, months);
    var e := ParsedFieldDenotes(f[4], 0, 7, days);
    m := Meaning(a, b, c, d, e);
  }

  /** A parsed expression whose sets are those of the items follows the calendar rule. */
  lemma SpecMeans(s: CronSpec, dow: set<int>, m: Meaning, t: Instant)
    requires IsInstant(t) && s.dow == FoldSunday(dow)
    requires forall v :: v in s.minute <==> InAny(m.minute, v)
    requires forall v :: v in s.hour <==> InAny(m.hour, v)
    requires forall v :: v in s.dom <==> InAny(m.dom, v)
    requires forall v :: v in s.month <==> InAny(m.month, v)
    requires forall v :: v in dow <==> InAny(m.dow, v)
    ensures Matches(s, t) <==> MeaningHolds(m, s.domStar, s.dowStar, t)
  {
  }

  lemma ParsedFields(f: seq<string>, months: Names, days: Names, s: CronSpec, dow: set<int>)
    requires |f| == 5 && NoSpace(f[2]) && NoSpace(f[4])
    requires ParseField(f[0], 0, 59, map[]) == Some(s.minute) && ParseField(f[1], 0, 23, map[]) == Some(s.hour)
    requires ParseField(f[2], 1, 31, map[]) == Some(s.dom) && ParseField(f[3], 1, 12, months) == Some(s.month)
    requires ParseField(f[4], 0, 7, days) == Some(dow) && s.dow == FoldSunday(dow)
    requires s.domStar == (f[2] == "*") && s.dowStar == (f[4] == "*")
    ensures ParseFields(f, months, days) == Some(s)
  {
    TrimNoSpace(f[2]);
    TrimNoSpace(f[4]);
  }

  lemma FieldsMatch(f: seq<string>, m: Meaning, months: Names, days: Names, t: Instant)
    requires IsInstant(t) && FieldsDenote(f, m, months, days) && NoSpace(f[2]) && NoSpace(f[4])
    requires NamesFit(months, 1, 12) && NamesFit(days, 0, 7)
    ensures var s := ParseFields(f, months, days);
            s.Some? && (Matches(s.value, t) <==> MeaningHolds(m, f[2] == "*", f[4] == "*", t))
  {
    var minute := PartsSpelled(Split(f[0], ','), m.minute, 0, 59, map[]);
    var hour := PartsSpelled(Split(f[1], ','), m.hour, 0, 23, map[]);
    var dom := PartsSpelled(Split(f[2], ','), m.dom, 1, 31, map[]);
    var month := PartsSpelled(Split(f[3], ','), m.month, 1, 12, months);
    var dow := PartsSpelled(Split(f[4], ','), m.dow, 0, 7, days);
    var s := CronSpec(minute, hour, dom, month, FoldSunday(dow), f[2] == "*", f[4] == "*");
    ParsedFields(f, months, days, s, dow);
    SpecMeans(s, dow, m, t);
  }

  /** Main theorem on expressions: five comma lists of the grammar are accepted, and the expression then
      matches exactly the instants that they mean. */
  lemma DenotedExprMatches(expr: string, m: Meaning, t: Instant)
    requires IsInstant(t) && ExprDenotes(Fields(TrimSpace(expr)), m)
    ensures var f := Fields(TrimSpace(expr));
            ParseCron(expr).Some? && (CronMatches(expr, t) <==> MeaningHolds(m, f[2] == "*", f[4] == "*", t))
  {
    var f := Fields(TrimSpace(expr));
    MonthNamesFit();
    DowNamesFit();
    FieldsAreTokens(TrimSpace(expr));
    assert f[2] in f && f[4] in f;
    FieldsMatch(f, m, MonthNames(), DowNames(), t);
  }

  /** Nothing else is accepted, and so nothing else matches. */
  lemma AcceptedExprDenotes(expr: string) returns (m: Meaning)
    requires ParseCron(expr).Some?
    ensures ExprDenotes(Fields(TrimSpace(expr)), m)
  {
    MonthNamesFit();
    DowNamesFit();
    m := FieldsAccepted(Fields(TrimSpace(expr)), MonthNames(), DowNames());
  }

  // ---------- Friendly schedules ----------

  datatype Kind = Raw | EveryNMinutes | HourlyAt | DailyAt | WeeklyAt | MonthlyAt | UnknownKind

  datatype Schedule = Schedule(kind: Kind, expr: string, minute: int, hour: int, day: int, weekday: int)

  function FiveFields(a: string, b: string, c: string, d: string, e: string): string {
    Join([a, b, c, d, e], ' ')
  }

  function Build(s: Schedule): Option<string> {
    var hm := 0 <= s.minute <= 59 && 0 <= s.hour <= 23;
    if s.kind == Raw then
      var expr := TrimSpace(s.expr);
      if ParseCron(expr).Some? then Some(expr) else None
    else if s.kind == EveryNMinutes then
      if s.minute < 1 || s.minute > 59 then None
      else Some(FiveFields("*/" + Itoa(s.minute), "*", "*", "*", "*"))
    else if s.kind == HourlyAt then
      if s.minute < 0 || s.minute > 59 then None
      else Some(FiveFields(Itoa(s.minute), "*", "*", "*", "*"))
    else if s.kind == DailyAt then
      if !hm then None else Some(FiveFields(Itoa(s.minute), Itoa(s.hour), "*", "*", "*"))
    else if s.kind == WeeklyAt then
      if !hm || s.weekday < 0 || s.weekday > 6 then None
      else Some(FiveFields(Itoa(s.minute), Itoa(s.hour), "*", "*", Itoa(s.weekday)))
    else if s.kind == MonthlyAt then
      if !hm || s.day < 1 || s.day > 31 then None
      else Some(FiveFields(Itoa(s.minute), Itoa(s.hour), Itoa(s.day), "*", "*"))
    else None
  }

  /** When a friendly schedule is due, in its own terms. */
  predicate Due(s: Schedule, t: Instant) {
    if s.kind == EveryNMinutes then s.minute >= 1 && t.minute % s.minute == 0
    else if s.kind == HourlyAt then t.minute == s.minute
    else if s.kind == DailyAt then t.hour == s.hour && t.minute == s.minute
    else if s.kind == WeeklyAt then t.weekday == s.weekday && t.hour == s.hour && t.minute == s.minute
    else if s.kind == MonthlyAt then t.day == s.day && t.hour == s.hour && t.minute == s.minute
    else false
  }

  lemma NoCommaOrSlash(s: string)
    requires AllDigits(s)
    ensures ',' !in s && '/' !in s && '-' !in s && '*' !in s
  {
    forall c | c in s
      ensures IsDigit(c)
    {
      var i :| 0 <= i < |s| && s[i] == c;
    }
  }

  lemma SingleField(s: string, item: Item, lo: int, hi: int, names: Names)
    requires ',' !in s && TrimSpace(s) == s && ParsePart(s, lo, hi, names) == Some(item)
    ensures ParseField(s, lo, hi, names) == Some(Values(item))
  {
    SplitPlain(s, ',');
    assert [s][..0] == [];
    assert ParseParts([], lo, hi, names) == Some({});
    assert {} + Values(item) == Values(item);
  }

  lemma NumberPart(s: string, n: nat, lo: int, hi: int, names: Names)
    requires s != "" && AllDigits(s) && Atoi(s) == Some(n) && lo <= n <= hi && NamesFit(names, lo, hi)
    ensures ParsePart(s, lo, hi, names) == Some(Item(n, n, 1))
  {
    NoCommaOrSlash(s);
    DigitsTrim(s);
    assert IsDigit(s[0]);
    if ToLower(s) in names {
      LowerIsName(s, names, lo, hi, 0);
    }
  }

  /** A printed number is parsed to that number alone. */
  lemma NumberField(n: nat, lo: int, hi: int, names: Names)
    requires lo <= n <= hi <= MAX_INT && NamesFit(names, lo, hi)
    ensures ParseField(Itoa(n), lo, hi, names) == Some({n})
  {
    var s := Itoa(n);
    AtoiItoa(n);
    NumberPart(s, n, lo, hi, names);
    NoCommaOrSlash(s);
    DigitsTrim(s);
    SingleField(s, Item(n, n, 1), lo, hi, names);
    assert Progression(n, n, 1) == {n};
  }

  lemma StarField(lo: int, hi: int, names: Names)
    ensures ParseField("*", lo, hi, names) == Some(Values(Item(lo, hi, 1)))
  {
    TrimNoSpace("*");
    SingleField("*", Item(lo, hi, 1), lo, hi, names);
  }

  lemma EveryPart(digits: string, n: int, lo: int, hi: int)
    requires Atoi(digits) == Some(n) && n >= 1
    ensures ParsePart("*/" + digits, lo, hi, map[]) == Some(Item(lo, hi, n))
  {
    assert "*/" + digits == "*" + "/" + digits;
    CutUnique("*/" + digits, '/', "*", digits);
  }

  lemma EveryText(digits: string)
    requires digits != "" && AllDigits(digits)
    ensures TrimSpace("*/" + digits) == "*/" + digits && NoSpace("*/" + digits) && ',' !in "*/" + digits
  {
    var s := "*/" + digits;
    NoCommaOrSlash(digits);
    DigitsNoSpace(digits);
    assert s[|s| - 1] == digits[|digits| - 1];
    TrimNoSpace(s);
  }

  lemma EveryField(n: nat, lo: int, hi: int)
    requires 1 <= n <= MAX_INT
    ensures ParseField("*/" + Itoa(n), lo, hi, map[]) == Some(Values(Item(lo, hi, n)))
    ensures NoSpace("*/" + Itoa(n))
  {
    var digits := Itoa(n);
    AtoiItoa(n);
    EveryPart(digits, n, lo, hi);
    EveryText(digits);
    SingleField("*/" + digits, Item(lo, hi, n), lo, hi, map[]);
  }

  lemma AllValues(lo: int, hi: int, v: int)
    ensures v in Values(Item(lo, hi, 1)) <==> lo <= v <= hi
  {
    ProgressionIs(lo, hi, 1, v);
  }

  /** The five texts of a built expression are read back as they were written. */
  lemma FieldsOfBuilt(a: string, b: string, c: string, d: string, e: string)
    requires forall f :: f in [a, b, c, d, e] ==> f != "" && NoSpace(f)
    ensures Fields(TrimSpace(FiveFields(a, b, c, d, e))) == [a, b, c, d, e]
  {
    var tokens := [a, b, c, d, e];
    var s := Join(tokens, ' ');
    assert a in tokens && e in tokens;
    JoinConcat([a], [b, c, d, e], ' ');
    JoinConcat([a, b, c, d], [e], ' ');
    assert tokens == [a] + [b, c, d, e] && tokens == [a, b, c, d] + [e];
    assert s[0] == a[0] && s[|s| - 1] == e[|e| - 1];
    TrimNoSpace(s);
    FieldsJoin(tokens);
  }

  /** Fields that are texts of these sets, with at most one day field restricted. */
  lemma BuiltFieldsMatch(f: seq<string>, months: Names, names: Names, t: Instant,
                         minutes: set<int>, hours: set<int>, days: set<int>, weekdays: set<int>)
    requires |f| == 5 && NoSpace(f[2]) && NoSpace(f[4]) && f[3] == "*" && (f[2] == "*" || f[4] == "*")
    requires ParseField(f[0], 0, 59, map[]) == Some(minutes) && ParseField(f[1], 0, 23, map[]) == Some(hours)
    requires ParseField(f[2], 1, 31, map[]) == Some(days) && ParseField(f[4], 0, 7, names) == Some(weekdays)
    requires IsInstant(t)
    ensures var s := ParseFields(f, months, names);
            s.Some? && (Matches(s.value, t) <==>
                        t.minute in minutes && t.hour in hours && t.day in days && t.weekday in FoldSunday(weekdays))
  {
    var all := Values(Item(1, 12, 1));
    StarField(1, 12, months);
    AllValues(1, 12, t.month);
    var s := CronSpec(minutes, hours, days, all, FoldSunday(weekdays), f[2] == "*", f[4] == "*");
    ParsedFields(f, months, names, s, weekdays);
  }

  lemma NumberText(n: int)
    requires 0 <= n < 100
    ensures var s := Itoa(n); s != "" && NoSpace(s) && Crontab.CronFieldOk(s)
  {
    DigitsNoSpace(Itoa(n));
    DigitsAreFieldChars(Itoa(n), "");
    assert "" + Itoa(n) == Itoa(n);
  }

  /** A text that a built expression may use as a field. */
  predicate FieldText(text: string) {
    text != "" && NoSpace(text) && Crontab.CronFieldOk(text)
  }

  /** A field that is either `*` or one printed number. */
  function StarOr(star: bool, n: int): string
    requires star || n >= 0
  {
    if star then "*" else Itoa(n)
  }

  lemma StarOrNumber(star: bool, n: int, lo: int, hi: int, names: Names, v: int) returns (values: set<int>)
    requires star || lo <= n <= hi
    requires 0 <= lo && hi < 100 && lo <= v <= hi && NamesFit(names, lo, hi)
    ensures ParseField(StarOr(star, n), lo, hi, names) == Some(values)
    ensures v in values <==> star || v == n
    ensures FieldText(StarOr(star, n))
    ensures hi in values ==> star || n == hi
    ensures lo in values ==> star || n == lo
  {
    if star {
      StarField(lo, hi, names);
      AllValues(lo, hi, v);
      values := Values(Item(lo, hi, 1));
    } else {
      NumberField(n, lo, hi, names);
      NumberText(n);
      values := {n};
    }
  }

  function MinuteText(every: bool, n: int): string
    requires n >= 0
  {
    if every then "*/" + Itoa(n) else Itoa(n)
  }

  lemma EveryMinutes(n: int, minute: int)
    requires 1 <= n <= 59 && 0 <= minute <= 59
    ensures minute in Values(Item(0, 59, n)) <==> minute % n == 0
  {
    ProgressionIs(0, 59, n, minute);
    assert minute - 0 == minute;
  }

  lemma MinuteField(every: bool, n: int, minute: int) returns (minutes: set<int>)
    requires (if every then 1 else 0) <= n <= 59 && 0 <= minute <= 59
    ensures ParseField(MinuteText(every, n), 0, 59, map[]) == Some(minutes)
    ensures minute in minutes <==> if every then minute % n == 0 else minute == n
    ensures FieldText(MinuteText(every, n))
  {
    if every {
      EveryField(n, 0, 59);
      minutes := Values(Item(0, 59, n));
      EveryMinutes(n, minute);
      DigitsAreFieldChars(Itoa(n), "*/");
    } else {
      minutes := StarOrNumber(false, n, 0, 59, map[], minute);
    }
  }

  predicate InRange(s: Schedule) {
    (if s.kind == EveryNMinutes then 1 else 0) <= s.minute <= 59 && 0 <= s.hour <= 23 &&
    1 <= s.day <= 31 && 0 <= s.weekday <= 6
  }

  /** The fields that Build prints. */
  function BuiltFields(s: Schedule): seq<string>
    requires InRange(s)
  {
    [MinuteText(s.kind == EveryNMinutes, s.minute), StarOr(s.kind == EveryNMinutes || s.kind == HourlyAt, s.hour),
     StarOr(s.kind != MonthlyAt, s.day), "*", StarOr(s.kind != WeeklyAt, s.weekday)]
  }

  /** Unused numbers of a schedule play no part. */
  function Normal(s: Schedule): Schedule {
    s.(hour := if s.kind == EveryNMinutes || s.kind == HourlyAt then 0 else s.hour,
       day := if s.kind == MonthlyAt then s.day else 1, weekday := if s.kind == WeeklyAt then s.weekday else 0)
  }

  /** Build accepts a friendly schedule if and only if the numbers it uses are in range. */
  lemma BuildPrints(s: Schedule)
    requires s.kind != Raw
    ensures Build(s).Some? <==> s.kind != UnknownKind && InRange(Normal(s))
    ensures Build(s).Some? ==> Build(s) == Some(Join(BuiltFields(Normal(s)), ' '))
  {
  }

  /** Being due, field by field. */
  lemma DueFields(s: Schedule, t: Instant)
    requires InRange(s) && s.kind != Raw && s.kind != UnknownKind && IsInstant(t)
    ensures Due(s, t) <==>
            (if s.kind == EveryNMinutes then t.minute % s.minute == 0 else t.minute == s.minute) &&
            (s.kind == EveryNMinutes || s.kind == HourlyAt || t.hour == s.hour) &&
            (s.kind == MonthlyAt ==> t.day == s.day) && (s.kind == WeeklyAt ==> t.weekday == s.weekday)
  {
  }

  lemma WeekdayField(star: bool, n: int, names: Names, v: int) returns (weekdays: set<int>)
    requires (star || 0 <= n <= 6) && 0 <= v <= 6 && NamesFit(names, 0, 7)
    ensures ParseField(StarOr(star, n), 0, 7, names) == Some(weekdays)
    ensures v in FoldSunday(weekdays) <==> star || v == n
    ensures FieldText(StarOr(star, n))
  {
    weekdays := StarOrNumber(star, n, 0, 7, names, v);
  }

  lemma BuiltFieldsAre(s: Schedule, names: Names, t: Instant)
    returns (minutes: set<int>, hours: set<int>, days: set<int>, weekdays: set<int>)
    requires InRange(s) && s.kind != Raw && s.kind != UnknownKind && IsInstant(t) && NamesFit(names, 0, 7)
    ensures ParseField(MinuteText(s.kind == EveryNMinutes, s.minute), 0, 59, map[]) == Some(minutes)
    ensures ParseField(StarOr(s.kind == EveryNMinutes || s.kind == HourlyAt, s.hour), 0, 23, map[]) == Some(hours)
    ensures ParseField(StarOr(s.kind != MonthlyAt, s.day), 1, 31, map[]) == Some(days)
    ensures ParseField(StarOr(s.kind != WeeklyAt, s.weekday), 0, 7, names) == Some(weekdays)
    ensures FieldText(MinuteText(s.kind == EveryNMinutes, s.minute))
    ensures FieldText(StarOr(s.kind == EveryNMinutes || s.kind == HourlyAt, s.hour))
    ensures FieldText(StarOr(s.kind != MonthlyAt, s.day)) && FieldText(StarOr(s.kind != WeeklyAt, s.weekday))
    ensures t.minute in minutes && t.hour in hours && t.day in days && t.weekday in FoldSunday(weekdays) <==> Due(s, t)
  {
    minutes := MinuteField(s.kind == EveryNMinutes, s.minute, t.minute);
    hours := StarOrNumber(s.kind == EveryNMinutes || s.kind == HourlyAt, s.hour, 0, 23, map[], t.hour);
    days := StarOrNumber(s.kind != MonthlyAt, s.day, 1, 31, map[], t.day);
    weekdays := WeekdayField(s.kind != WeeklyAt, s.weekday, names, t.weekday);
    DueFields(s, t);
  }

  lemma BuiltLine(f: seq<string>)
    requires |f| == 5 && forall x :: x in f ==> FieldText(x)
    ensures Fields(TrimSpace(Join(f, ' '))) == f
    ensures Crontab.ValidCronExpr(Join(f, ' '))
  {
    FiveOf(f);
    FieldsOfBuilt(f[0], f[1], f[2], f[3], f[4]);
  }

  lemma BuiltTexts(s: Schedule) returns (f: seq<string>)
    requires InRange(s)
    ensures f == BuiltFields(s) && |f| == 5 && f[3] == "*" && (f[2] == "*" || f[4] == "*")
    ensures f[0] == MinuteText(s.kind == EveryNMinutes, s.minute)
    ensures f[1] == StarOr(s.kind == EveryNMinutes || s.kind == HourlyAt, s.hour)
    ensures f[2] == StarOr(s.kind != MonthlyAt, s.day) && f[4] == StarOr(s.kind != WeeklyAt, s.weekday)
  {
    f := BuiltFields(s);
  }

  lemma BuiltFieldsDue(s: Schedule, months: Names, names: Names, t: Instant)
    requires InRange(s) && s.kind != Raw && s.kind != UnknownKind && IsInstant(t) && NamesFit(names, 0, 7)
    ensures var spec := ParseFields(BuiltFields(s), months, names); spec.Some? && (Matches(spec.value, t) <==> Due(s, t))
  {
    var f := BuiltTexts(s);
    var minutes, hours, days, weekdays := BuiltFieldsAre(s, names, t);
    BuiltFieldsMatch(f, months, names, t, minutes, hours, days, weekdays);
  }

  lemma BuiltIsLine(s: Schedule)
    requires InRange(s)
    ensures var line := Join(BuiltFields(s), ' ');
            Fields(TrimSpace(line)) == BuiltFields(s) && Crontab.ValidCronExpr(line)
  {
    var f := BuiltTexts(s);
    NumberText(s.minute);
    NumberText(s.hour);
    NumberText(s.day);
    NumberText(s.weekday);
    EveryText(Itoa(s.minute));
    DigitsAreFieldChars(Itoa(s.minute), "*/");
    assert FieldText("*");
    forall x | x in f
      ensures FieldText(x)
    {
      assert x == f[0] || x == f[1] || x == f[2] || x == f[3] || x == f[4];
    }
    BuiltLine(f);
  }

  lemma MatchesByFields(expr: string, f: seq<string>, t: Instant)
    requires |f| == 5 && Fields(TrimSpace(expr)) == f
    ensures var s := ParseFields(f, MonthNames(), DowNames()); CronMatches(expr, t) <==> s.Some? && Matches(s.value, t)
  {
  }

  lemma BuiltIsDue(s: Schedule, t: Instant)
    requires InRange(s) && s.kind != Raw && s.kind != UnknownKind && IsInstant(t)
    ensures CronMatches(Join(BuiltFields(s), ' '), t) <==> Due(s, t)
  {
    assert NamesFit(DowNames(), 0, 7) by { DowNamesFit(); }
    BuiltFieldsDue(s, MonthNames(), DowNames(), t);
    assert Fields(TrimSpace(Join(BuiltFields(s), ' '))) == BuiltFields(s) by { BuiltIsLine(s); }
    MatchesByFields(Join(BuiltFields(s), ' '), BuiltFields(s), t);
  }

  lemma NormalIsDue(s: Schedule, t: Instant)
    ensures Due(Normal(s), t) <==> Due(s, t)
  {
  }

  /** Main theorem on schedules: for every friendly schedule that Build accepts and every instant, the
      built expression matches exactly when the schedule is due, and the host's validator accepts it. */
  lemma CompiledScheduleIsDue(s: Schedule, t: Instant)
    requires s.kind != Raw && Build(s).Some? && IsInstant(t)
    ensures CronMatches(Build(s).value, t) <==> Due(s, t)
    ensures Crontab.ValidCronExpr(Build(s).value)
  {
    BuildPrints(s);
    BuiltIsDue(Normal(s), t);
    BuiltIsLine(Normal(s));
    NormalIsDue(s, t);
  }

  lemma DigitsAreFieldChars(s: string, head: string)
    requires AllDigits(s) && |head + s| <= 64 && head + s != ""
    requires forall i :: 0 <= i < |head| ==> Crontab.CronFieldChar(head[i])
    ensures Crontab.CronFieldOk(head + s)
  {
    forall i | 0 <= i < |head + s|
      ensures Crontab.CronFieldChar((head + s)[i])
    {
      if i >= |head| {
        assert IsDigit(s[i - |head|]);
      }
    }
  }

  // ---------- Raw expressions and the host's validator ----------

  /** The characters that the parser lets into a field. */
  predicate AcceptedChar(c: char) {
    Crontab.CronFieldChar(c) || c == '+' || c == '\U{0130}'
  }

  predicate AllAccepted(s: string) {
    forall i :: 0 <= i < |s| ==> AcceptedChar(s[i])
  }

  lemma CutAccepted(s: string, k: nat)
    requires k < |s| && AllAccepted(s[..k]) && AcceptedChar(s[k]) && AllAccepted(s[k + 1..])
    ensures AllAccepted(s)
  {
    forall i | 0 <= i < |s|
      ensures AcceptedChar(s[i])
    {
      if i < k {
        assert s[i] == s[..k][i];
      } else if i > k {
        assert s[i] == s[k + 1..][i - k - 1];
      }
    }
  }

  lemma ValueChars(s: string, lo: int, hi: int, names: Names)
    requires NamesFit(names, lo, hi) && NoSpace(s) && AtoiName(s, lo, hi, names).Some?
    ensures AllAccepted(s)
  {
    TrimNoSpace(s);
    forall i | 0 <= i < |s|
      ensures AcceptedChar(s[i])
    {
      if ToLower(s) in names {
        LowerIsName(s, names, lo, hi, i);
      } else {
        AtoiChars(s);
      }
    }
  }

  lemma BaseChars(s: string, lo: int, hi: int, names: Names)
    requires NamesFit(names, lo, hi) && NoSpace(s) && ParseBase(s, lo, hi, names).Some?
    ensures AllAccepted(s)
  {
    var dash := IndexByte(s, '-');
    if s != "*" {
      if dash.Some? && dash.value > 0 {
        var x, y := s[..dash.value], s[dash.value + 1..];
        assert NoSpace(x) && NoSpace(y);
        ValueChars(x, lo, hi, names);
        ValueChars(y, lo, hi, names);
        CutAccepted(s, dash.value);
      } else {
        ValueChars(s, lo, hi, names);
      }
    }
  }

  lemma StepChars(t: string)
    requires Atoi(t).Some?
    ensures AllAccepted(t)
  {
    AtoiChars(t);
  }

  lemma SteppedChars(part: string, k: nat, lo: int, hi: int, names: Names)
    requires NamesFit(names, lo, hi) && NoSpace(part) && k < |part| && part[k] == '/'
    requires ParseBase(part[..k], lo, hi, names).Some? && Atoi(part[k + 1..]).Some?
    ensures AllAccepted(part)
  {
    assert NoSpace(part[..k]);
    BaseChars(part[..k], lo, hi, names);
    StepChars(part[k + 1..]);
    CutAccepted(part, k);
  }

  lemma PartChars(part: string, lo: int, hi: int, names: Names)
    requires NamesFit(names, lo, hi) && NoSpace(part) && ParsePart(part, lo, hi, names).Some?
    ensures AllAccepted(part)
  {
    var slash := IndexByte(part, '/');
    if slash.Some? {
      SteppedChars(part, slash.value, lo, hi, names);
    } else {
      BaseChars(part, lo, hi, names);
    }
  }

  lemma {:induction false} PartsChars(parts: seq<string>, lo: int, hi: int, names: Names)
    requires NamesFit(names, lo, hi) && ParseParts(parts, lo, hi, names).Some?
    requires forall p :: p in parts ==> NoSpace(p)
    ensures forall p, c :: p in parts && c in p ==> AcceptedChar(c)
  {
    if parts != [] {
      var n := |parts| - 1;
      PartsChars(parts[..n], lo, hi, names);
      assert parts[n] in parts;
      TrimNoSpace(parts[n]);
      PartChars(parts[n], lo, hi, names);
    }
  }

  lemma {:induction false} CharInParts(s: string, sep: char, c: char)
    requires c in s && c != sep
    ensures exists p :: p in Split(s, sep) && c in p
  {
    if c in s[1..] {
      CharInParts(s[1..], sep, c);
      var p :| p in Split(s[1..], sep) && c in p;
      if p == Split(s[1..], sep)[0] && s[0] != sep {
        assert ([s[0]] + p) == Split(s, sep)[0];
        assert c in [s[0]] + p;
      }
    } else {
      assert c == s[0] && c in Split(s, sep)[0];
    }
  }

  lemma FieldChars(f: string, lo: int, hi: int, names: Names, c: char)
    requires NamesFit(names, lo, hi) && NoSpace(f) && ParseField(f, lo, hi, names).Some? && c in f
    ensures AcceptedChar(c)
  {
    if c != ',' {
      var parts := Split(f, ',');
      SplitPartsNoSpace(f, ',');
      PartsChars(parts, lo, hi, names);
      CharInParts(f, ',', c);
    }
  }

  /** What the host's validator refuses although this parser accepts it: a plus sign, the dotted capital I
      that folds to i, and fields of more than 64 characters. */
  predicate HostFriendly(expr: string) {
    '+' !in expr && '\U{0130}' !in expr && forall f :: f in Fields(TrimSpace(expr)) ==> |f| <= 64
  }

  predicate HostFriendlyField(f: string) {
    '+' !in f && '\U{0130}' !in f && |f| <= 64
  }

  lemma HostFieldIff(f: string, lo: int, hi: int, names: Names)
    requires NamesFit(names, lo, hi) && f != "" && NoSpace(f) && ParseField(f, lo, hi, names).Some?
    ensures Crontab.CronFieldOk(f) <==> HostFriendlyField(f)
  {
    if HostFriendlyField(f) {
      forall i | 0 <= i < |f|
        ensures Crontab.CronFieldChar(f[i])
      {
        FieldChars(f, lo, hi, names, f[i]);
        assert f[i] in f;
      }
    }
  }

  predicate HostField(f: string) {
    Crontab.CronFieldOk(f) <==> HostFriendlyField(f)
  }

  lemma EachFieldParses(f: seq<string>, months: Names, days: Names)
    requires |f| == 5 && ParseFields(f, months, days).Some?
    ensures ParseField(f[0], 0, 59, map[]).Some? && ParseField(f[1], 0, 23, map[]).Some?
    ensures ParseField(f[2], 1, 31, map[]).Some? && ParseField(f[3], 1, 12, months).Some?
    ensures ParseField(f[4], 0, 7, days).Some?
  {
  }

  lemma EachFieldHost(a: string, b: string, c: string, d: string, e: string, months: Names, days: Names)
    requires NamesFit(months, 1, 12) && NamesFit(days, 0, 7)
    requires forall x :: x in [a, b, c, d, e] ==> x != "" && NoSpace(x)
    requires ParseField(a, 0, 59, map[]).Some? && ParseField(b, 0, 23, map[]).Some?
    requires ParseField(c, 1, 31, map[]).Some? && ParseField(d, 1, 12, months).Some?
    requires ParseField(e, 0, 7, days).Some?
    ensures HostField(a) && HostField(b) && HostField(c) && HostField(d) && HostField(e)
  {
    var f := [a, b, c, d, e];
    assert a in f && b in f && c in f && d in f && e in f;
    HostFieldIff(a, 0, 59, map[]);
    HostFieldIff(b, 0, 23, map[]);
    HostFieldIff(c, 1, 31, map[]);
    HostFieldIff(d, 1, 12, months);
    HostFieldIff(e, 0, 7, days);
  }

  lemma HostFieldsIff(f: seq<string>, months: Names, days: Names)
    requires |f| == 5 && NamesFit(months, 1, 12) && NamesFit(days, 0, 7) && ParseFields(f, months, days).Some?
    requires forall x :: x in f ==> x != "" && NoSpace(x)
    ensures forall x :: x in f ==> HostField(x)
  {
    FiveOf(f);
    EachFieldParses(f, months, days);
    EachFieldHost(f[0], f[1], f[2], f[3], f[4], months, days);
  }

  lemma FriendlyFields(e: string)
    ensures HostFriendly(TrimSpace(e)) <==> forall x :: x in Fields(TrimSpace(e)) ==> HostFriendlyField(x)
  {
    var t := TrimSpace(e);
    TrimSpaceEnds(e);
    FieldsAreTokens(t);
    if HostFriendly(t) {
      forall x | x in Fields(t)
        ensures HostFriendlyField(x)
      {
      }
    } else if '+' in t {
      NonSpaceInFields(t, '+');
    } else if '\U{0130}' in t {
      NonSpaceInFields(t, '\U{0130}');
    } else {
      var x :| x in Fields(TrimSpace(t)) && |x| > 64;
      assert x in Fields(t) && !HostFriendlyField(x);
    }
  }

  /** The comment on Build promises that what it returns passes the host's validator. That holds of an
      accepted expression exactly when it is host-friendly; a raw schedule can break it. */
  lemma AcceptedIsHostValidIff(expr: string)
    requires ParseCron(expr).Some?
    ensures Crontab.ValidCronExpr(expr) <==> HostFriendly(TrimSpace(expr))
  {
    MonthNamesFit();
    DowNamesFit();
    var f := Fields(TrimSpace(expr));
    FieldsAreTokens(TrimSpace(expr));
    FriendlyFields(expr);
    HostFieldsIff(f, MonthNames(), DowNames());
    assert forall x :: x in f ==> HostField(x);
  }

  lemma PlusFive()
    ensures ParseField("+5", 0, 59, map[]) == Some({5})
  {
    var s := "+5";
    TrimNoSpace(s);
    assert s[1..] == "5" && AllDigits("5") && "5"[..0] == "";
    assert DigitsValue("5") == 5;
    assert Progression(5, 5, 1) == {5};
    SingleField(s, Item(5, 5, 1), 0, 59, map[]);
  }

  lemma PlusFiveParses(f: seq<string>, months: Names, days: Names)
    requires |f| == 5 && f[0] == "+5" && f[1] == "*" && f[2] == "*" && f[3] == "*" && f[4] == "*"
    ensures ParseFields(f, months, days).Some?
  {
    PlusFive();
    StarField(0, 23, map[]);
    StarField(1, 31, map[]);
    StarField(1, 12, months);
    StarField(0, 7, days);
  }

  lemma PlusFiveLine(e: string)
    requires e == FiveFields("+5", "*", "*", "*", "*")
    ensures Fields(TrimSpace(e)) == ["+5", "*", "*", "*", "*"] && ParseCron(e).Some?
  {
    var f := ["+5", "*", "*", "*", "*"];
    assert NoSpace("+5") && NoSpace("*");
    FieldsOfBuilt("+5", "*", "*", "*", "*");
    PlusFiveParses(f, MonthNames(), DowNames());
  }

  lemma PlusFiveRefused(e: string)
    requires Fields(TrimSpace(e)) == ["+5", "*", "*", "*", "*"]
    ensures !Crontab.ValidCronExpr(e)
  {
    var first := Fields(TrimSpace(e))[0];
    assert first[0] == '+';
    assert !Crontab.CronFieldOk(first);
  }

  /** `+5 * * * *` is such a raw expression. */
  lemma RawPlusBreaksPromise(s: Schedule)
    requires s.kind == Raw && TrimSpace(s.expr) == FiveFields("+5", "*", "*", "*", "*")
    ensures Build(s).Some? && !Crontab.ValidCronExpr(Build(s).value)
  {
    var e := TrimSpace(s.expr);
    assert !Crontab.ValidCronExpr(e) by {
      PlusFiveLine(e);
      PlusFiveRefused(e);
    }
    assert ParseCron(e).Some? by {
      PlusFiveLine(e);
    }
  }
}

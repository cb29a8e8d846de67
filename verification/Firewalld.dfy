/** internal/modules/firewall/{firewalld,validate,rule}.go: port and address rules written as firewalld rich rules,
    and port rules read back from a listing. */
module Firewalld {
  import opened Text

  datatype PortRule = PortRule(action: string, port: string, proto: string, source: string, comment: string)
  datatype IPRule = IPRule(trust: bool, ip: string)

  // ---------- Validation ----------

  predicate ValidPort(p: int) { 1 <= p <= 65535 }

  predicate ValidProto(p: string) { p == "tcp" || p == "udp" }

  predicate ValidAction(a: string) { a == "allow" || a == "deny" }

  /** A port or a closed range of ports. */
  datatype PortSpec = PortSpec(from: int, to: int, isRange: bool)

  /** parsePortSpec. */
  function ParsePortSpec(text: string): (r: Option<PortSpec>)
    ensures r.Some? ==> ValidPort(r.value.from) && ValidPort(r.value.to) && r.value.from <= r.value.to &&
                        r.value.isRange == (r.value.from < r.value.to)
  {
    var spec := TrimSpace(text);
    if spec == "" then None
    else if '-' !in spec then
      var p := Atoi(spec);
      if p.None? || !ValidPort(p.value) then None else Some(PortSpec(p.value, p.value, false))
    else
      var parts := Split(spec, '-');
      if |parts| != 2 then None
      else
        var lo, hi := Atoi(TrimSpace(parts[0])), Atoi(TrimSpace(parts[1]));
        if lo.None? || hi.None? || !ValidPort(lo.value) || !ValidPort(hi.value) then None
        else if lo.value > hi.value then None
        else Some(PortSpec(lo.value, hi.value, lo.value < hi.value))
  }

  /** The syntax of addresses and networks is left open, but for the characters it uses. */
  ghost predicate IpSyntax(validIP: string -> bool) {
    forall s :: validIP(s) ==> s != "" && forall i :: 0 <= i < |s| ==> IsIpChar(s[i])
  }

  predicate IsIpChar(c: char) {
    '0' <= c <= '9' || 'a' <= c <= 'f' || 'A' <= c <= 'F' || c == '.' || c == ':' || c == '/'
  }

  predicate ValidPortRule(r: PortRule, validIP: string -> bool) {
    ValidAction(r.action) && ParsePortSpec(r.port).Some? && ValidProto(r.proto) &&
    (r.source == "" || validIP(r.source))
  }

  predicate ValidIPRule(r: IPRule, validIP: string -> bool) {
    validIP(r.ip)
  }

  // ---------- Printing ----------

  function PortToken(port: string): string {
    match ParsePortSpec(port)
    case Some(PortSpec(from, to, isRange)) =>
      if isRange then Itoa(from) + "-" + Itoa(to) else Itoa(from)
    case None => "0"
  }

  function IpFamily(s: string): string {
    if ':' in s then "ipv6" else "ipv4"
  }

  predicate IsQuote(q: string) { q == "" || q == "\"" }

  /** The part of a rule about its source; `q` is put around attribute values. */
  function SourceText(source: string, q: string): string {
    "family=" + (q + IpFamily(source) + q) + " source address=" + (q + source + q) + " "
  }

  function MaybeSource(source: string, q: string): string {
    if source == "" then "" else SourceText(source, q)
  }

  function Verb(action: string): string {
    if action == "allow" then "accept" else "reject"
  }

  function TargetText(port: string, proto: string, q: string): string {
    "port port=" + (q + PortToken(port) + q) + " protocol=" + (q + proto + q) + " "
  }

  function PortText(r: PortRule, q: string): string {
    "rule " + MaybeSource(r.source, q) + TargetText(r.port, r.proto, q) + Verb(r.action)
  }

  function IPVerb(r: IPRule): string {
    if r.trust then "accept" else "drop"
  }

  function IPText(r: IPRule, q: string): string {
    "rule " + SourceText(r.ip, q) + IPVerb(r)
  }

  lemma NoQuotes(x: string)
    ensures "" + x + "" == x
  {
  }

  /** portRichRule, with its builder. */
  method PortRichRule(r: PortRule) returns (text: string)
    ensures text == PortText(r, "")
    ensures var from := if r.source == "" then ""
                        else "family=" + (if ':' in r.source then "ipv6" else "ipv4") + " source address=" + r.source + " ";
            text == "rule " + from + ("port port=" + PortToken(r.port) + " protocol=" + r.proto + " ") +
                    (if r.action == "allow" then "accept" else "reject")
  {
    text := "rule ";
    NoQuotes(IpFamily(r.source));
    NoQuotes(r.source);
    NoQuotes(PortToken(r.port));
    NoQuotes(r.proto);
    if r.source != "" {
      text := text + ("family=" + IpFamily(r.source) + " source address=" + r.source + " ");
    }
    assert text == "rule " + MaybeSource(r.source, "");
    text := text + ("port port=" + PortToken(r.port) + " protocol=" + r.proto + " ");
    if r.action == "allow" {
      text := text + "accept";
    } else {
      text := text + "reject";
    }
  }

  /** ipRichRule. */
  method IPRichRule(r: IPRule) returns (text: string)
    ensures text == IPText(r, "")
    ensures text == "rule " + ("family=" + (if ':' in r.ip then "ipv6" else "ipv4") + " source address=" + r.ip + " ") +
                    (if r.trust then "accept" else "drop")
  {
    var verb := "drop";
    if r.trust {
      verb := "accept";
    }
    NoQuotes(IpFamily(r.ip));
    NoQuotes(r.ip);
    text := "rule " + ("family=" + IpFamily(r.ip) + " source address=" + r.ip + " ") + verb;
  }

  // ---------- Parsing ----------

  /** strings.Index. */
  function Index(s: string, key: string): (i: Option<nat>)
    ensures i.Some? ==> i.value + |key| <= |s|
  {
    if |s| < |key| then None
    else if s[..|key|] == key then Some(0)
    else if s == [] then None
    else match Index(s[1..], key)
      case None => None
      case Some(i) => Some(i + 1)
  }

  /** richAttr indexes the first field of what follows the key, and panics when there is none. */
  datatype Attr = Value(text: string) | Panic

  function RichAttr(line: string, key: string): Attr {
    match Index(line, key)
    case None => Value("")
    case Some(i) => Attribute(line[i + |key|..])
  }

  function Attribute(rest: string): Attr {
    if HasPrefix(rest, "\"") then
      match IndexByte(rest[1..], '"')
      case Some(j) => Value(rest[1..][..j])
      case None => Value("")
    else
      var fields := Fields(rest);
      if fields == [] then Panic else Value(fields[0])
  }

  datatype Parsed = Rule(rule: PortRule) | NotPortRule | Panics

  predicate Denies(line: string) {
    Index(line, " reject").Some? || Index(line, " drop").Some?
  }

  /** parseFirewalldRichRule. */
  function ParseRichRule(line: string, validIP: string -> bool): Parsed {
    var port, proto := RichAttr(line, "port port="), RichAttr(line, "protocol=");
    if port.Panic? || proto.Panic? then Panics
    else if port.text == "" || proto.text == "" || !ValidProto(proto.text) || ParsePortSpec(port.text).None? then NotPortRule
    else
      var source := RichAttr(line, "source address=");
      if source.Panic? then Panics
      else
        Rule(PortRule(if Denies(line) then "deny" else "allow", port.text, proto.text,
                      if source.text != "" && !validIP(source.text) then "" else source.text, ""))
  }

  function PortOfToken(tok: string): seq<PortRule> {
    match IndexByte(tok, '/')
    case None => []
    case Some(slash) =>
      var port, proto := tok[..slash], tok[slash + 1..];
      if !ValidProto(proto) || ParsePortSpec(port).None? then [] else [PortRule("allow", port, proto, "", "")]
  }

  function PortsOfTokens(tokens: seq<string>): seq<PortRule> {
    if tokens == [] then [] else PortsOfTokens(tokens[..|tokens| - 1]) + PortOfToken(tokens[|tokens| - 1])
  }

  /** One line of the listing; None when the program panics. */
  function ParseLine(raw: string, validIP: string -> bool): Option<seq<PortRule>> {
    var line := TrimSpace(raw);
    if HasPrefix(line, "ports:") then Some(PortsOfTokens(Fields(line[6..])))
    else if HasPrefix(line, "rule ") then
      match ParseRichRule(line, validIP)
      case Rule(r) => Some([r])
      case NotPortRule => Some([])
      case Panics => None
    else Some([])
  }

  function ParseLines(lines: seq<string>, validIP: string -> bool): Option<seq<PortRule>> {
    if lines == [] then Some([])
    else
      var front, last := ParseLines(lines[..|lines| - 1], validIP), ParseLine(lines[|lines| - 1], validIP);
      if front.None? || last.None? then None else Some(front.value + last.value)
  }

  /** parseFirewalldRules. */
  function ParseRules(out: string, validIP: string -> bool): Option<seq<PortRule>> {
    ParseLines(Split(out, '\n'), validIP)
  }

  /** parseFirewalldPortsLine, with its loop. */
  method ParsePortsLine(s: string) returns (rules: seq<PortRule>)
    ensures rules == PortsOfTokens(Fields(s))
  {
    rules := [];
    var tokens := Fields(s);
    for i := 0 to |tokens|
      invariant rules == PortsOfTokens(tokens[..i])
    {
      assert tokens[..i + 1][..i] == tokens[..i];
      var tok := tokens[i];
      var slash := IndexByte(tok, '/');
      if slash.None? {
        continue;
      }
      var port, proto := tok[..slash.value], tok[slash.value + 1..];
      if !ValidProto(proto) {
        continue;
      }
      if ParsePortSpec(port).None? {
        continue;
      }
      assert PortOfToken(tok) == [PortRule("allow", port, proto, "", "")];
      rules := rules + [PortRule("allow", port, proto, "", "")];
    }
    assert tokens[..|tokens|] == tokens;
  }

  lemma {:induction false} PanicEnds(lines: seq<string>, n: nat, validIP: string -> bool)
    requires n <= |lines| && ParseLines(lines[..n], validIP).None?
    ensures ParseLines(lines, validIP).None?
    decreases |lines|
  {
    if n < |lines| {
      assert lines[..|lines| - 1][..n] == lines[..n];
      PanicEnds(lines[..|lines| - 1], n, validIP);
    } else {
      assert lines[..n] == lines;
    }
  }

  /** The switch in the loop of parseFirewalldRules. */
  method ParseOneLine(raw: string, validIP: string -> bool) returns (rules: Option<seq<PortRule>>)
    ensures rules == ParseLine(raw, validIP)
  {
    var line := TrimSpace(raw);
    if HasPrefix(line, "ports:") {
      var more := ParsePortsLine(line[6..]);
      return Some(more);
    }
    if HasPrefix(line, "rule ") {
      var parsed := ParseRichRule(line, validIP);
      match parsed
      case Rule(rule) => return Some([rule]);
      case NotPortRule => return Some([]);
      case Panics => return None;
    }
    return Some([]);
  }

  /** parseFirewalldRules, with its loop; None stands for the panic that ends it. */
  method ParseFirewalldRules(out: string, validIP: string -> bool) returns (r: Option<seq<PortRule>>)
    ensures r == ParseRules(out, validIP)
  {
    var rules: seq<PortRule> := [];
    var lines := Split(out, '\n');
    for i := 0 to |lines|
      invariant ParseLines(lines[..i], validIP) == Some(rules)
    {
      assert lines[..i + 1][..i] == lines[..i];
      var more := ParseOneLine(lines[i], validIP);
      if more.None? {
        PanicEnds(lines, i + 1, validIP);
        return None;
      }
      rules := rules + more.value;
    }
    assert lines[..|lines|] == lines;
    r := Some(rules);
  }

  // ---------- Searching for a key ----------

  /** Nowhere in s does b follow a. */
  predicate NoPair(s: string, a: char, b: char) {
    forall i {:trigger s[i]} :: 0 <= i < |s| - 1 ==> s[i] != a || s[i + 1] != b
  }

  lemma NoPairCat(x: string, y: string, a: char, b: char)
    requires NoPair(x, a, b) && NoPair(y, a, b)
    requires x == [] || y == [] || x[|x| - 1] != a || y[0] != b
    ensures NoPair(x + y, a, b)
  {
    forall i | 0 <= i < |x + y| - 1
      ensures (x + y)[i] != a || (x + y)[i + 1] != b
    {
      if i < |x| - 1 {
        assert (x + y)[i] == x[i] && (x + y)[i + 1] == x[i + 1];
      } else if i >= |x| {
        assert (x + y)[i] == y[i - |x|] && (x + y)[i + 1] == y[i - |x| + 1];
      }
    }
  }

  lemma NoPairWithout(s: string, a: char, b: char)
    requires a !in s || b !in s
    ensures NoPair(s, a, b)
  {
  }

  /** The key is found where it was put when its first two characters do not come earlier. */
  lemma {:induction false} IndexFirst(pre: string, key: string, rest: string)
    requires |key| >= 2 && NoPair(pre + [key[0]], key[0], key[1])
    ensures Index(pre + key + rest, key) == Some(|pre|)
    decreases |pre|
  {
    var s := pre + key + rest;
    if pre == [] {
      assert s[..|key|] == key;
    } else {
      assert s[1..] == pre[1..] + key + rest;
      assert s[0] == (pre + [key[0]])[0] && s[1] == (pre + [key[0]])[1];
      assert s[..|key|][0] == s[0] && s[..|key|][1] == s[1];
      NoPairTail(pre + [key[0]], key[0], key[1]);
      assert (pre + [key[0]])[1..] == pre[1..] + [key[0]];
      IndexFirst(pre[1..], key, rest);
    }
  }

  lemma NoPairTail(s: string, a: char, b: char)
    requires s != [] && NoPair(s, a, b)
    ensures NoPair(s[1..], a, b)
  {
    forall i | 0 <= i < |s| - 2
      ensures s[1..][i] != a || s[1..][i + 1] != b
    {
      assert s[1..][i] == s[i + 1];
    }
  }

  lemma {:induction false} IndexNone(s: string, key: string)
    requires |key| >= 2 && NoPair(s, key[0], key[1])
    ensures Index(s, key) == None
    decreases |s|
  {
    if |s| >= |key| {
      assert s[0] != key[0] || s[1] != key[1];
      assert s[..|key|][0] == s[0] && s[..|key|][1] == s[1];
      NoPairTail(s, key[0], key[1]);
      IndexNone(s[1..], key);
    }
  }

  lemma {:induction false} IndexSome(pre: string, key: string, rest: string)
    requires key != []
    ensures Index(pre + key + rest, key).Some?
    decreases |pre|
  {
    var s := pre + key + rest;
    if pre == [] {
      assert s[..|key|] == key;
    } else {
      assert s[1..] == pre[1..] + key + rest;
      IndexSome(pre[1..], key, rest);
    }
  }

  /** A value that can be printed as an attribute. */
  predicate IsToken(t: string) {
    t != "" && NoSpace(t) && '"' !in t
  }

  lemma QuotedReads(t: string, rest: string)
    requires '"' !in t
    ensures Attribute("\"" + t + "\"" + rest) == Value(t)
  {
    var s := "\"" + t + "\"" + rest;
    assert s[1..] == t + ['"'] + rest;
    IndexByteOf(t, '"', rest);
    assert s[1..][..|t|] == t;
  }

  lemma BareReads(t: string, rest: string)
    requires IsToken(t) && (rest == [] || IsSpace(rest[0]))
    ensures Attribute(t + rest) == Value(t)
  {
    FieldsToken(t, rest);
    assert (t + rest)[0] == t[0] && t[0] in t;
  }

  lemma AttributeReads(q: string, t: string, rest: string)
    requires IsQuote(q) && IsToken(t) && (rest == [] || IsSpace(rest[0]))
    ensures Attribute(q + t + q + rest) == Value(t)
  {
    if q == "" {
      BareReads(t, rest);
      assert q + t + q == t;
    } else {
      QuotedReads(t, rest);
    }
  }

  lemma RichAttrReads(pre: string, key: string, q: string, t: string, rest: string)
    requires |key| >= 2 && NoPair(pre + [key[0]], key[0], key[1])
    requires IsQuote(q) && IsToken(t) && (rest == [] || IsSpace(rest[0]))
    ensures RichAttr(pre + key + (q + t + q + rest), key) == Value(t)
  {
    var line := pre + key + (q + t + q + rest);
    IndexFirst(pre, key, q + t + q + rest);
    assert line[|pre| + |key|..] == q + t + q + rest;
    AttributeReads(q, t, rest);
  }

  lemma AttributePanicsIff(rest: string)
    requires rest == [] || !IsSpace(rest[|rest| - 1])
    ensures Attribute(rest).Panic? <==> rest == []
  {
    if rest != [] {
      NonSpaceInFields(rest, rest[|rest| - 1]);
    }
  }

  /** On a trimmed line the program panics exactly when the line ends with the first occurrence of the key. */
  lemma RichAttrPanicsIff(line: string, key: string)
    requires key != "" && TrimSpace(line) == line
    ensures RichAttr(line, key).Panic? <==> Index(line, key) == Some(|line| - |key|)
  {
    var i := Index(line, key);
    if i.Some? {
      var rest := line[i.value + |key|..];
      assert rest == [] || !IsSpace(rest[|rest| - 1]) by {
        TrimSpaceEnds(line);
        assert rest != [] ==> rest[|rest| - 1] == line[|line| - 1];
      }
      AttributePanicsIff(rest);
    }
  }

  // ---------- Ports ----------

  /** The characters of addresses and port tokens. */
  predicate IsValueChar(c: char) { IsIpChar(c) || c == '-' }

  predicate IsValue(s: string) {
    s != "" && forall i :: 0 <= i < |s| ==> IsValueChar(s[i])
  }

  lemma ValueIsToken(s: string)
    requires IsValue(s)
    ensures IsToken(s) && 'p' !in s && 's' !in s && ' ' !in s && '\n' !in s
  {
    assert forall c :: c in s ==> IsValueChar(c);
  }

  lemma DigitsAreValue(n: nat)
    ensures IsValue(Itoa(n)) && '-' !in Itoa(n)
  {
    var s := Itoa(n);
    assert forall i :: 0 <= i < |s| ==> IsDigit(s[i]);
  }

  lemma AtoiPrinted(n: nat)
    ensures TrimSpace(Itoa(n)) == Itoa(n) && Atoi(Itoa(n)) == if n <= MAX_INT then Some(n) else None
  {
    DigitsTrim(Itoa(n));
    assert IsDigit(Itoa(n)[0]);
  }

  /** A printed number is a port specification if and only if it is a port. */
  lemma SingleParses(p: nat)
    ensures ParsePortSpec(Itoa(p)) == if 1 <= p <= 65535 then Some(PortSpec(p, p, false)) else None
  {
    DigitsAreValue(p);
    AtoiPrinted(p);
  }

  lemma RangeSplits(a: string, b: string)
    requires AllDigits(a) && AllDigits(b) && a != [] && b != [] && '-' !in a && '-' !in b
    ensures var text := a + "-" + b; TrimSpace(text) == text && '-' in text && Split(text, '-') == [a, b]
  {
    var text := a + "-" + b;
    assert text[0] == a[0] && text[|text| - 1] == b[|b| - 1] && IsDigit(a[0]) && IsDigit(b[|b| - 1]);
    TrimNoSpace(text);
    assert text[|a|] == '-';
    SplitConcat(a, b, '-');
    SplitPlain(a, '-');
    SplitPlain(b, '-');
  }

  /** The branch for ranges. */
  lemma RangeOf(text: string, a: string, b: string, lo: Option<int>, hi: Option<int>)
    requires TrimSpace(text) == text && text != "" && '-' in text && Split(text, '-') == [a, b]
    requires Atoi(TrimSpace(a)) == lo && Atoi(TrimSpace(b)) == hi
    ensures ParsePortSpec(text) ==
            if lo.Some? && hi.Some? && 1 <= lo.value <= hi.value <= 65535
            then Some(PortSpec(lo.value, hi.value, lo.value < hi.value)) else None
  {
  }

  /** A printed range is one if and only if it is an ordered range of ports. */
  lemma RangeParses(lo: nat, hi: nat)
    ensures ParsePortSpec(Itoa(lo) + "-" + Itoa(hi)) ==
            if 1 <= lo <= hi <= 65535 then Some(PortSpec(lo, hi, lo < hi)) else None
  {
    var a, b := Itoa(lo), Itoa(hi);
    assert '-' !in a && '-' !in b by {
      DigitsAreValue(lo);
      DigitsAreValue(hi);
    }
    RangeSplits(a, b);
    AtoiPrinted(lo);
    AtoiPrinted(hi);
    RangeOf(a + "-" + b, a, b, Atoi(a), Atoi(b));
  }

  lemma RangeIsValue(lo: nat, hi: nat)
    ensures IsValue(Itoa(lo) + "-" + Itoa(hi))
  {
    DigitsAreValue(lo);
    DigitsAreValue(hi);
  }

  /** The canonical form of a port reads as the port does. */
  lemma PortTokenParses(port: string)
    requires ParsePortSpec(port).Some?
    ensures ParsePortSpec(PortToken(port)) == ParsePortSpec(port)
    ensures PortToken(PortToken(port)) == PortToken(port) && IsValue(PortToken(port))
  {
    var spec := ParsePortSpec(port).value;
    if spec.isRange {
      RangeIsValue(spec.from, spec.to);
      RangeParses(spec.from, spec.to);
    } else {
      DigitsAreValue(spec.from);
      SingleParses(spec.from);
    }
  }

  // ---------- The keys in a printed rule ----------

  /** A key and its value hold no pair when neither does. */
  lemma NoPairValue(lit: string, q: string, x: string, a: char, b: char)
    requires NoPair(lit, a, b) && NoPair(x, a, b) && IsQuote(q) && a != '"' && b != '"'
    requires lit != [] && lit[|lit| - 1] != a
    ensures NoPair(lit + (q + x + q), a, b)
  {
    NoPairCat(q, x, a, b);
    NoPairCat(q + x, q, a, b);
    NoPairCat(lit, q + x + q, a, b);
  }

  /** The pairs that start the keys searched for. */
  predicate IsKeyPair(a: char, b: char) {
    (a == 'p' && (b == 'o' || b == 'r')) || (a == ' ' && (b == 'r' || b == 'd'))
  }

  lemma FamilyNoPair(source: string, a: char, b: char)
    requires IsKeyPair(a, b)
    ensures NoPair(IpFamily(source), a, b)
  {
    assert NoPair("ipv4", a, b) && NoPair("ipv6", a, b);
  }

  lemma SourceLiterals(a: char, b: char)
    requires IsKeyPair(a, b)
    ensures NoPair("rule ", a, b) && NoPair("family=", a, b) && NoPair(" source address=", a, b)
  {
    if a == 'p' {
      NoPairWithout("rule ", a, b);
      NoPairWithout("family=", a, b);
      NoPairWithout(" source address=", a, b);
    } else {
      NoPairWithout("family=", a, b);
      NoPairCat(" source", " address=", a, b);
      assert " source" + " address=" == " source address=";
    }
  }

  lemma SourceNoPair(source: string, q: string, a: char, b: char)
    requires IsKeyPair(a, b) && IsValue(source) && IsQuote(q)
    ensures NoPair(SourceText(source, q), a, b)
  {
    ValueIsToken(source);
    SourceLiterals(a, b);
    FamilyNoPair(source, a, b);
    NoPairWithout(source, a, b);
    var one := "family=" + (q + IpFamily(source) + q);
    var two := " source address=" + (q + source + q);
    NoPairValue("family=", q, IpFamily(source), a, b);
    NoPairValue(" source address=", q, source, a, b);
    NoPairCat(one, two, a, b);
    assert NoPair(" ", a, b);
    NoPairCat(one + two, " ", a, b);
    assert one + two + " " == SourceText(source, q) by {
      ConcatAssoc(one, " source address=", q + source + q);
    }
  }

  lemma HeadNoPair(source: string, q: string, a: char, b: char)
    requires IsKeyPair(a, b) && (source == "" || IsValue(source)) && IsQuote(q)
    ensures NoPair("rule " + MaybeSource(source, q), a, b)
    ensures var head := "rule " + MaybeSource(source, q); head[|head| - 1] == ' '
  {
    SourceLiterals(a, b);
    if source != "" {
      SourceNoPair(source, q, a, b);
      NoPairCat("rule ", SourceText(source, q), a, b);
    } else {
      assert "rule " + "" == "rule ";
    }
  }

  lemma TargetLiterals(a: char, b: char)
    requires IsKeyPair(a, b)
    ensures a != 'p' || b != 'o' ==> NoPair("port port=", a, b)
    ensures NoPair(" ", a, b) && NoPair(" p", a, b)
    ensures a == ' ' ==> NoPair(" protocol=", a, b)
  {
    if a == 'p' {
      if b == 'r' {
        NoPairCat("port ", "port=", a, b);
        assert "port " + "port=" == "port port=";
      }
    } else {
      NoPairCat("port", " port=", a, b);
      assert "port" + " port=" == "port port=";
      NoPairCat(" ", "protocol=", a, b);
      assert " " + "protocol=" == " protocol=";
    }
  }

  lemma ProtoNoPair(proto: string, a: char, b: char)
    requires IsKeyPair(a, b) && ValidProto(proto)
    ensures NoPair(proto, a, b) && IsToken(proto) && '\n' !in proto && 's' !in proto
  {
  }

  // ---------- The attributes of a port rule ----------

  lemma Cut(a: string, b: string, c: string, d: string, e: string, f: string, g: string)
    ensures a + (b + c + d + e + f) + g == a + b + (c + (d + e + f + g))
    ensures a + (b + c + d + e + f) + g == a + (b + c + d + e) + (f + g)
  {
  }

  lemma CutInside(a: string, b: string, c: string, d1: string, d2: string, e: string, f: string, g: string)
    ensures a + (b + c + (d1 + d2) + e + f) + g == (a + b + c + d1) + d2 + (e + (f + g))
  {
  }

  predicate Printable(r: PortRule) {
    ParsePortSpec(r.port).Some? && (r.source == "" || IsValue(r.source)) && ValidProto(r.proto)
  }

  lemma BeforePort(source: string, q: string)
    requires (source == "" || IsValue(source)) && IsQuote(q)
    ensures NoPair("rule " + MaybeSource(source, q) + "p", 'p', 'o')
  {
    HeadNoPair(source, q, 'p', 'o');
    NoPairWithout("p", 'p', 'o');
    NoPairCat("rule " + MaybeSource(source, q), "p", 'p', 'o');
  }

  /** A key in a line, with what starts it as separate characters. */
  lemma KeyReads(line: string, pre: string, key: string, a: char, b: char, q: string, t: string, rest: string)
    requires line == pre + key + (q + t + q + rest)
    requires |key| >= 2 && key[0] == a && key[1] == b && NoPair(pre + [a], a, b)
    requires IsQuote(q) && IsToken(t) && (rest == [] || IsSpace(rest[0]))
    ensures RichAttr(line, key) == Value(t)
  {
    RichAttrReads(pre, key, q, t, rest);
  }

  lemma TokenOfPort(port: string)
    requires ParsePortSpec(port).Some?
    ensures IsToken(PortToken(port))
  {
    PortTokenParses(port);
    ValueIsToken(PortToken(port));
  }

  /** What follows the value of the port. */
  function AfterPort(r: PortRule, q: string): string {
    " protocol=" + (q + r.proto + q) + " " + Verb(r.action)
  }

  lemma CutAtPort(r: PortRule, q: string)
    ensures PortText(r, q) ==
            "rule " + MaybeSource(r.source, q) + "port port=" + (q + PortToken(r.port) + q + AfterPort(r, q))
  {
    var head := "rule " + MaybeSource(r.source, q);
    Cut(head, "port port=", q + PortToken(r.port) + q, " protocol=", q + r.proto + q, " ", Verb(r.action));
  }

  lemma PortAttr(r: PortRule, q: string)
    requires Printable(r) && IsQuote(q)
    ensures RichAttr(PortText(r, q), "port port=") == Value(PortToken(r.port))
  {
    TokenOfPort(r.port);
    BeforePort(r.source, q);
    CutAtPort(r, q);
    var head := "rule " + MaybeSource(r.source, q);
    KeyReads(PortText(r, q), head, "port port=", 'p', 'o', q, PortToken(r.port), AfterPort(r, q));
  }

  lemma PortValueNoPair(port: string, q: string, a: char, b: char)
    requires ParsePortSpec(port).Some? && IsQuote(q) && IsKeyPair(a, b) && (a != 'p' || b != 'o')
    ensures NoPair("port port=" + (q + PortToken(port) + q), a, b)
  {
    PortTokenParses(port);
    ValueIsToken(PortToken(port));
    TargetLiterals(a, b);
    NoPairWithout(PortToken(port), a, b);
    NoPairValue("port port=", q, PortToken(port), a, b);
  }

  lemma BeforeProto(r: PortRule, q: string)
    requires Printable(r) && IsQuote(q)
    ensures NoPair("rule " + MaybeSource(r.source, q) + "port port=" + (q + PortToken(r.port) + q) + " " + "p", 'p', 'r')
  {
    var head, port := "rule " + MaybeSource(r.source, q), "port port=" + (q + PortToken(r.port) + q);
    HeadNoPair(r.source, q, 'p', 'r');
    PortValueNoPair(r.port, q, 'p', 'r');
    NoPairCat(head, port, 'p', 'r');
    NoPairWithout(" p", 'p', 'r');
    NoPairCat(head + port, " p", 'p', 'r');
    assert head + "port port=" + (q + PortToken(r.port) + q) + " " + "p" == head + port + " p" by {
      ConcatAssoc(head, "port port=", q + PortToken(r.port) + q);
      ConcatAssoc(head + port, " ", "p");
    }
  }

  /** What comes before the protocol. */
  function UpToProto(r: PortRule, q: string): string {
    "rule " + MaybeSource(r.source, q) + "port port=" + (q + PortToken(r.port) + q) + " "
  }

  lemma CutAtProto(r: PortRule, q: string)
    ensures PortText(r, q) == UpToProto(r, q) + "protocol=" + (q + r.proto + q + (" " + Verb(r.action)))
  {
    var head := "rule " + MaybeSource(r.source, q);
    assert " " + "protocol=" == " protocol=";
    CutInside(head, "port port=", q + PortToken(r.port) + q, " ", "protocol=", q + r.proto + q, " ", Verb(r.action));
  }

  lemma ProtoAttr(r: PortRule, q: string)
    requires Printable(r) && IsQuote(q)
    ensures RichAttr(PortText(r, q), "protocol=") == Value(r.proto)
  {
    ProtoNoPair(r.proto, 'p', 'r');
    BeforeProto(r, q);
    CutAtProto(r, q);
    KeyReads(PortText(r, q), UpToProto(r, q), "protocol=", 'p', 'r', q, r.proto, " " + Verb(r.action));
  }

  /** What follows "rule " in a text about a source, up to the value of the source. */
  lemma SourceReads(source: string, q: string, more: string)
    requires IsValue(source) && IsQuote(q)
    ensures RichAttr("rule " + SourceText(source, q) + more, "source address=") == Value(source)
  {
    var fam := q + IpFamily(source) + q;
    var pre, key, rest := "rule " + "family=" + fam + " ", "source address=", " " + more;
    assert NoPair(pre + [key[0]], key[0], key[1]) by {
      assert 's' !in "rule " && 's' !in "family=" && 's' !in fam && 's' !in " ";
      assert 's' !in pre;
      NoPairWithout(pre, 's', 'o');
      NoPairWithout("s", 's', 'o');
      NoPairCat(pre, "s", 's', 'o');
    }
    assert "rule " + SourceText(source, q) + more == pre + key + (q + source + q + rest) by {
      assert " " + "source address=" == " source address=";
      CutInside("rule ", "family=", fam, " ", "source address=", q + source + q, " ", more);
    }
    assert IsToken(source) by {
      ValueIsToken(source);
    }
    RichAttrReads(pre, key, q, source, rest);
  }

  lemma NoSourceText(r: PortRule, q: string)
    requires Printable(r) && IsQuote(q) && r.source == "" && ValidAction(r.action)
    ensures 's' !in PortText(r, q)
  {
    PortTokenParses(r.port);
    ValueIsToken(PortToken(r.port));
    ProtoNoPair(r.proto, 'p', 'o');
    assert 's' !in "rule " && 's' !in Verb(r.action);
    assert 's' !in TargetText(r.port, r.proto, q) by {
      assert 's' !in "port port=" && 's' !in " protocol=" && 's' !in " ";
    }
  }

  lemma AbsentReads(line: string, key: string)
    requires |key| >= 2 && NoPair(line, key[0], key[1])
    ensures RichAttr(line, key) == Value("")
  {
    IndexNone(line, key);
  }

  lemma NoSourceReads(r: PortRule, q: string)
    requires Printable(r) && IsQuote(q) && r.source == "" && ValidAction(r.action)
    ensures RichAttr(PortText(r, q), "source address=") == Value("")
  {
    NoSourceText(r, q);
    NoPairWithout(PortText(r, q), 's', 'o');
    AbsentReads(PortText(r, q), "source address=");
  }

  lemma SourceAttr(r: PortRule, q: string)
    requires Printable(r) && IsQuote(q) && ValidAction(r.action)
    ensures RichAttr(PortText(r, q), "source address=") == Value(r.source)
  {
    if r.source == "" {
      NoSourceReads(r, q);
    } else {
      var target := TargetText(r.port, r.proto, q);
      SourceReads(r.source, q, target + Verb(r.action));
      ConcatAssoc("rule " + SourceText(r.source, q), target, Verb(r.action));
    }
  }

  lemma TargetNoSpacePair(r: PortRule, q: string, b: char)
    requires Printable(r) && IsQuote(q) && (b == 'r' || b == 'd')
    ensures NoPair(TargetText(r.port, r.proto, q), ' ', b)
  {
    var port, proto := "port port=" + (q + PortToken(r.port) + q), " protocol=" + (q + r.proto + q);
    PortValueNoPair(r.port, q, ' ', b);
    TargetLiterals(' ', b);
    ProtoNoPair(r.proto, ' ', b);
    NoPairValue(" protocol=", q, r.proto, ' ', b);
    NoPairCat(port, proto, ' ', b);
    NoPairCat(port + proto, " ", ' ', b);
    assert TargetText(r.port, r.proto, q) == port + proto + " " by {
      ConcatAssoc(port, " protocol=", q + r.proto + q);
    }
  }

  lemma AllowNoPair(r: PortRule, q: string, b: char)
    requires Printable(r) && IsQuote(q) && r.action == "allow" && (b == 'r' || b == 'd')
    ensures NoPair(PortText(r, q), ' ', b)
  {
    var head, target := "rule " + MaybeSource(r.source, q), TargetText(r.port, r.proto, q);
    HeadNoPair(r.source, q, ' ', b);
    TargetNoSpacePair(r, q, b);
    assert target != [] && target[0] == 'p';
    NoPairCat(head, target, ' ', b);
    NoPairWithout("accept", ' ', b);
    NoPairCat(head + target, "accept", ' ', b);
  }

  lemma AllowDoesNotDeny(r: PortRule, q: string)
    requires Printable(r) && IsQuote(q) && r.action == "allow"
    ensures !Denies(PortText(r, q))
  {
    AllowNoPair(r, q, 'r');
    AllowNoPair(r, q, 'd');
    IndexNone(PortText(r, q), " reject");
    IndexNone(PortText(r, q), " drop");
  }

  lemma RejectEnds(a: string, b: string)
    ensures a + (b + " ") + "reject" == (a + b) + " reject" + ""
  {
    assert " " + "reject" == " reject";
    ConcatAssoc(a, b, " ");
    ConcatAssoc(a + b, " ", "reject");
  }

  lemma DeniesIff(r: PortRule, q: string)
    requires Printable(r) && IsQuote(q) && ValidAction(r.action)
    ensures Denies(PortText(r, q)) <==> r.action == "deny"
  {
    if r.action == "allow" {
      AllowDoesNotDeny(r, q);
    } else {
      var head := "rule " + MaybeSource(r.source, q);
      var front := "port port=" + (q + PortToken(r.port) + q) + " protocol=" + (q + r.proto + q);
      RejectEnds(head, front);
      IndexSome(head + front, " reject", "");
    }
  }

  /** The rule as it comes back: its port in canonical form, its comment gone. */
  function Canonical(r: PortRule): PortRule {
    r.(port := PortToken(r.port), comment := "")
  }

  lemma ValidIsPrintable(r: PortRule, validIP: string -> bool)
    requires IpSyntax(validIP) && ValidPortRule(r, validIP)
    ensures Printable(r)
  {
  }

  lemma AttributesMakeRule(line: string, port: string, proto: string, source: string, denies: bool, validIP: string -> bool)
    requires RichAttr(line, "port port=") == Value(port) && RichAttr(line, "protocol=") == Value(proto)
    requires RichAttr(line, "source address=") == Value(source) && Denies(line) == denies
    requires port != "" && ValidProto(proto) && ParsePortSpec(port).Some? && (source == "" || validIP(source))
    ensures ParseRichRule(line, validIP) == Rule(PortRule(if denies then "deny" else "allow", port, proto, source, ""))
  {
  }

  /** A printed port rule is read back, quoted or not. */
  lemma PortRuleReads(r: PortRule, q: string, validIP: string -> bool)
    requires IpSyntax(validIP) && ValidPortRule(r, validIP) && IsQuote(q)
    ensures ParseRichRule(PortText(r, q), validIP) == Rule(Canonical(r))
  {
    ValidIsPrintable(r, validIP);
    PortTokenParses(r.port);
    PortAttr(r, q);
    ProtoAttr(r, q);
    SourceAttr(r, q);
    DeniesIff(r, q);
    AttributesMakeRule(PortText(r, q), PortToken(r.port), r.proto, r.source, r.action == "deny", validIP);
  }

  lemma IPTextNoPair(r: IPRule, q: string, b: char)
    requires IsValue(r.ip) && IsQuote(q) && (b == 'o' || b == 'r')
    ensures NoPair(IPText(r, q), 'p', b)
  {
    HeadNoPair(r.ip, q, 'p', b);
    assert NoPair(IPVerb(r), 'p', b);
    NoPairCat("rule " + MaybeSource(r.ip, q), IPVerb(r), 'p', b);
  }

  lemma NoPortNoRule(line: string, validIP: string -> bool)
    requires RichAttr(line, "port port=") == Value("") && RichAttr(line, "protocol=") == Value("")
    ensures ParseRichRule(line, validIP) == NotPortRule
  {
  }

  lemma NoKeysNoRule(line: string, validIP: string -> bool)
    requires NoPair(line, 'p', 'o') && NoPair(line, 'p', 'r')
    ensures ParseRichRule(line, validIP) == NotPortRule
  {
    AbsentReads(line, "port port=");
    AbsentReads(line, "protocol=");
    NoPortNoRule(line, validIP);
  }

  /** A printed address rule is passed over. */
  lemma IPRuleIsSkipped(r: IPRule, q: string, validIP: string -> bool)
    requires IpSyntax(validIP) && ValidIPRule(r, validIP) && IsQuote(q)
    ensures ParseRichRule(IPText(r, q), validIP) == NotPortRule
  {
    IPTextNoPair(r, q, 'o');
    IPTextNoPair(r, q, 'r');
    NoKeysNoRule(IPText(r, q), validIP);
  }

  /** A rule read back is valid, means the same ports, prints the same text and is read back unchanged. */
  lemma CanonicalPrintsTheSame(r: PortRule, q: string, validIP: string -> bool)
    requires ValidPortRule(r, validIP)
    ensures ValidPortRule(Canonical(r), validIP) && ParsePortSpec(Canonical(r).port) == ParsePortSpec(r.port)
    ensures PortText(Canonical(r), q) == PortText(r, q) && Canonical(Canonical(r)) == Canonical(r)
  {
    PortTokenParses(r.port);
  }
}

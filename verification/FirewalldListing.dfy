/** internal/modules/firewall/firewalld.go: whole listings, read back line by line, and the lines on which the parser
    panics. */
module FirewalldListing {
  import opened Text
  import opened Firewalld

  // ---------- Whole listings ----------

  /** A line of a listing: a port rule, an address rule, all open ports, or what the parser passes over. */
  datatype Item = PortItem(port: PortRule) | IPItem(ip: IPRule) | OpenItem(open: seq<PortRule>) | OtherItem(text: string)

  /** As the listing shows it: indented, the attribute values of a rule quoted or not. */
  datatype Printed = Printed(item: Item, quoted: bool, indent: string)

  function Quote(quoted: bool): string {
    if quoted then "\"" else ""
  }

  function ItemText(item: Item, q: string): string {
    match item
    case PortItem(r) => PortText(r, q)
    case IPItem(r) => IPText(r, q)
    case OpenItem(rules) => OpenText(rules)
    case OtherItem(text) => text
  }

  function LineText(p: Printed): string {
    p.indent + ItemText(p.item, Quote(p.quoted))
  }

  predicate ValidItem(item: Item, validIP: string -> bool) {
    match item
    case PortItem(r) => ValidPortRule(r, validIP)
    case IPItem(r) => ValidIPRule(r, validIP)
    case OpenItem(rules) => AllOpen(rules)
    case OtherItem(text) =>
      '\n' !in text && !HasPrefix(TrimSpace(text), "rule ") && !HasPrefix(TrimSpace(text), "ports:")
  }

  predicate ValidPrinted(p: Printed, validIP: string -> bool) {
    ValidItem(p.item, validIP) && IsIndent(p.indent)
  }

  function ItemRules(item: Item): seq<PortRule> {
    match item
    case PortItem(r) => [Canonical(r)]
    case OpenItem(rules) => Opened(rules)
    case _ => []
  }

  function Texts(ps: seq<Printed>): seq<string> {
    if ps == [] then [] else Texts(ps[..|ps| - 1]) + [LineText(ps[|ps| - 1])]
  }

  /** The port rules of a listing, in order. */
  function PortRulesOf(ps: seq<Printed>): seq<PortRule> {
    if ps == [] then [] else PortRulesOf(ps[..|ps| - 1]) + ItemRules(ps[|ps| - 1].item)
  }

  lemma {:induction false} TrimIndent(indent: string, body: string)
    requires forall i :: 0 <= i < |indent| ==> IsSpace(indent[i])
    requires body != [] && !IsSpace(body[0]) && !IsSpace(body[|body| - 1])
    ensures TrimSpace(indent + body) == body
    decreases |indent|
  {
    if indent == [] {
      assert indent + body == body;
      TrimNoSpace(body);
    } else {
      assert (indent + body)[1..] == indent[1..] + body;
      TrimIndent(indent[1..], body);
    }
  }

  /** What the switch of the parser sees of a rule. */
  predicate LooksLikeRule(text: string) {
    text != [] && HasPrefix(text, "rule ") && !HasPrefix(text, "ports:") && !IsSpace(text[0]) && !IsSpace(text[|text| - 1])
  }

  lemma StartsAndEnds(head: string, verb: string)
    requires verb == "accept" || verb == "reject" || verb == "drop"
    ensures LooksLikeRule("rule " + head + verb)
  {
    var text := "rule " + head + verb;
    assert text[..5] == "rule ";
    assert text[..6][0] == 'r';
    assert text[|text| - 1] == verb[|verb| - 1];
  }

  lemma PortTextLooks(r: PortRule, q: string)
    ensures LooksLikeRule(PortText(r, q))
  {
    StartsAndEnds(MaybeSource(r.source, q) + TargetText(r.port, r.proto, q), Verb(r.action));
    ConcatAssoc("rule ", MaybeSource(r.source, q), TargetText(r.port, r.proto, q));
  }

  lemma IPTextLooks(r: IPRule, q: string)
    ensures LooksLikeRule(IPText(r, q))
  {
    StartsAndEnds(SourceText(r.ip, q), IPVerb(r));
  }

  lemma SourceOneLine(source: string, q: string)
    requires IsValue(source) && IsQuote(q)
    ensures '\n' !in SourceText(source, q)
  {
    ValueIsToken(source);
    assert '\n' !in "family=" && '\n' !in " source address=" && '\n' !in " " && '\n' !in q && '\n' !in IpFamily(source);
  }

  lemma TargetOneLine(port: string, proto: string, q: string)
    requires ParsePortSpec(port).Some? && ValidProto(proto) && IsQuote(q)
    ensures '\n' !in TargetText(port, proto, q)
  {
    PortTokenParses(port);
    ValueIsToken(PortToken(port));
    ProtoNoPair(proto, 'p', 'o');
    assert '\n' !in "port port=" && '\n' !in " protocol=" && '\n' !in " " && '\n' !in q;
  }

  lemma PortOneLine(r: PortRule, q: string)
    requires Printable(r) && IsQuote(q)
    ensures '\n' !in PortText(r, q)
  {
    assert '\n' !in "rule " && '\n' !in Verb(r.action);
    assert '\n' !in MaybeSource(r.source, q) by {
      if r.source != "" {
        SourceOneLine(r.source, q);
      }
    }
    TargetOneLine(r.port, r.proto, q);
  }

  lemma IPOneLine(r: IPRule, q: string)
    requires IsValue(r.ip) && IsQuote(q)
    ensures '\n' !in IPText(r, q)
  {
    assert '\n' !in "rule " && '\n' !in IPVerb(r);
    SourceOneLine(r.ip, q);
  }

  predicate IsIndent(s: string) {
    forall i :: 0 <= i < |s| ==> s[i] == ' ' || s[i] == '\t'
  }

  lemma RuleLine(indent: string, text: string, validIP: string -> bool)
    requires IsIndent(indent) && LooksLikeRule(text) && '\n' !in text
    ensures ParseLine(indent + text, validIP) ==
            match ParseRichRule(text, validIP)
            case Rule(r) => Some([r])
            case NotPortRule => Some([])
            case Panics => None
    ensures '\n' !in indent + text
  {
    TrimIndent(indent, text);
  }

  lemma PortLineReads(r: PortRule, q: string, indent: string, validIP: string -> bool)
    requires IpSyntax(validIP) && ValidPortRule(r, validIP) && IsQuote(q) && IsIndent(indent)
    ensures ParseLine(indent + PortText(r, q), validIP) == Some([Canonical(r)]) && '\n' !in indent + PortText(r, q)
  {
    var text := PortText(r, q);
    assert LooksLikeRule(text) && '\n' !in text by {
      PortTextLooks(r, q);
      ValidIsPrintable(r, validIP);
      PortOneLine(r, q);
    }
    RuleLine(indent, text, validIP);
    PortRuleReads(r, q, validIP);
  }

  lemma IPLineReads(r: IPRule, q: string, indent: string, validIP: string -> bool)
    requires IpSyntax(validIP) && ValidIPRule(r, validIP) && IsQuote(q) && IsIndent(indent)
    ensures ParseLine(indent + IPText(r, q), validIP) == Some([]) && '\n' !in indent + IPText(r, q)
  {
    var text := IPText(r, q);
    assert LooksLikeRule(text) && '\n' !in text by {
      IPTextLooks(r, q);
      IPOneLine(r, q);
    }
    RuleLine(indent, text, validIP);
    IPRuleIsSkipped(r, q, validIP);
  }

  lemma LineReads(p: Printed, validIP: string -> bool)
    requires IpSyntax(validIP) && ValidPrinted(p, validIP)
    ensures ParseLine(LineText(p), validIP) == Some(ItemRules(p.item)) && '\n' !in LineText(p)
  {
    match p.item
    case PortItem(r) => PortLineReads(r, Quote(p.quoted), p.indent, validIP);
    case IPItem(r) => IPLineReads(r, Quote(p.quoted), p.indent, validIP);
    case OpenItem(rules) => PortsLineRoundTrip(rules, p.indent, validIP);
    case OtherItem(text) => OtherLineReads(text, p.indent, validIP);
  }

  lemma ParseLinesSnoc(front: seq<string>, last: string, validIP: string -> bool)
    requires ParseLines(front, validIP).Some? && ParseLine(last, validIP).Some?
    ensures ParseLines(front + [last], validIP) ==
            Some(ParseLines(front, validIP).value + ParseLine(last, validIP).value)
  {
    assert (front + [last])[..|front|] == front;
  }

  lemma {:induction false} LinesRead(ps: seq<Printed>, validIP: string -> bool)
    requires IpSyntax(validIP) && forall i :: 0 <= i < |ps| ==> ValidPrinted(ps[i], validIP)
    ensures ParseLines(Texts(ps), validIP) == Some(PortRulesOf(ps))
  {
    if ps != [] {
      var front, last := ps[..|ps| - 1], ps[|ps| - 1];
      LinesRead(front, validIP);
      LineReads(last, validIP);
      ParseLinesSnoc(Texts(front), LineText(last), validIP);
    }
  }

  lemma {:induction false} TextsAreLines(ps: seq<Printed>, validIP: string -> bool)
    requires IpSyntax(validIP) && forall i :: 0 <= i < |ps| ==> ValidPrinted(ps[i], validIP)
    ensures |Texts(ps)| == |ps| && forall line :: line in Texts(ps) ==> '\n' !in line
  {
    if ps != [] {
      TextsAreLines(ps[..|ps| - 1], validIP);
      LineReads(ps[|ps| - 1], validIP);
    }
  }

  lemma EmptyListing(validIP: string -> bool)
    ensures ParseRules("", validIP) == Some([])
  {
    var none: seq<PortRule> := [];
    assert ParseLine("", validIP) == Some(none);
    ParseLinesSnoc([], "", validIP);
    assert none + none == none && [] + [""] == [""];
  }

  /** Main theorem: of any listing of valid port and address rules printed one per line, each with its values quoted
      or not, of lines of open ports and of other lines, in any order, the parser returns exactly the port rules,
      in order, with action, protocol and source intact, the port in canonical form and the comment gone. */
  lemma ListingRoundTrip(ps: seq<Printed>, validIP: string -> bool)
    requires IpSyntax(validIP) && forall i :: 0 <= i < |ps| ==> ValidPrinted(ps[i], validIP)
    ensures ParseRules(Join(Texts(ps), '\n'), validIP) == Some(PortRulesOf(ps))
  {
    if ps == [] {
      EmptyListing(validIP);
    } else {
      LinesRead(ps, validIP);
      TextsAreLines(ps, validIP);
      SplitJoin(Texts(ps), '\n');
    }
  }

  // ---------- Open ports ----------

  function OpenPort(r: PortRule): string {
    PortToken(r.port) + "/" + r.proto
  }

  function OpenPorts(rules: seq<PortRule>): seq<string> {
    if rules == [] then [] else OpenPorts(rules[..|rules| - 1]) + [OpenPort(rules[|rules| - 1])]
  }

  function Opened(rules: seq<PortRule>): seq<PortRule> {
    if rules == [] then []
    else
      var r := rules[|rules| - 1];
      Opened(rules[..|rules| - 1]) + [PortRule("allow", PortToken(r.port), r.proto, "", "")]
  }

  lemma TokenSplits(tok: string, proto: string)
    requires '/' !in tok
    ensures var text := tok + "/" + proto;
            IndexByte(text, '/') == Some(|tok|) && text[..|tok|] == tok && text[|tok| + 1..] == proto
  {
    IndexByteOf(tok, '/', proto);
  }

  lemma OpenPortReads(r: PortRule)
    requires ParsePortSpec(r.port).Some? && ValidProto(r.proto)
    ensures PortOfToken(OpenPort(r)) == [PortRule("allow", PortToken(r.port), r.proto, "", "")]
  {
    PortTokenParses(r.port);
    NoSlash(r.port);
    TokenSplits(PortToken(r.port), r.proto);
  }

  lemma OpenPortIsToken(r: PortRule)
    requires ParsePortSpec(r.port).Some? && ValidProto(r.proto)
    ensures OpenPort(r) != [] && NoSpace(OpenPort(r))
  {
    PortTokenParses(r.port);
    ValueIsToken(PortToken(r.port));
    ProtoNoPair(r.proto, 'p', 'o');
  }

  lemma NoSlash(port: string)
    requires ParsePortSpec(port).Some?
    ensures '/' !in PortToken(port)
  {
    var spec := ParsePortSpec(port).value;
    assert forall n: nat, c :: c in Itoa(n) ==> IsDigit(c);
  }

  lemma PortsSnoc(front: seq<string>, tok: string)
    ensures PortsOfTokens(front + [tok]) == PortsOfTokens(front) + PortOfToken(tok)
  {
    assert (front + [tok])[..|front|] == front;
  }

  lemma {:induction false} OpenPortsRead(rules: seq<PortRule>)
    requires AllOpen(rules)
    ensures PortsOfTokens(OpenPorts(rules)) == Opened(rules)
  {
    if rules != [] {
      var front, last := rules[..|rules| - 1], rules[|rules| - 1];
      OpenPortsRead(front);
      OpenPortReads(last);
      PortsSnoc(OpenPorts(front), OpenPort(last));
    }
  }

  lemma {:induction false} OpenPortsAreTokens(rules: seq<PortRule>)
    requires AllOpen(rules)
    ensures forall t :: t in OpenPorts(rules) ==> t != [] && NoSpace(t)
  {
    if rules != [] {
      OpenPortsAreTokens(rules[..|rules| - 1]);
      OpenPortIsToken(rules[|rules| - 1]);
    }
  }

  predicate AllOpen(rules: seq<PortRule>) {
    forall i :: 0 <= i < |rules| ==> ParsePortSpec(rules[i].port).Some? && ValidProto(rules[i].proto)
  }

  /** The line of open ports. */
  function OpenText(rules: seq<PortRule>): string {
    "ports:" + if rules == [] then "" else " " + Join(OpenPorts(rules), ' ')
  }

  lemma OpenTextEnds(rules: seq<PortRule>)
    requires AllOpen(rules)
    ensures var text := OpenText(rules); !IsSpace(text[0]) && !IsSpace(text[|text| - 1])
  {
    if rules != [] {
      var last := rules[|rules| - 1];
      JoinEnd(OpenPorts(rules), ' ');
      assert OpenPort(last)[|OpenPort(last)| - 1] == 'p';
    }
  }

  lemma OpenPortsOneLine(rules: seq<PortRule>)
    requires AllOpen(rules)
    ensures forall t :: t in OpenPorts(rules) ==> '\n' !in t
  {
    OpenPortsAreTokens(rules);
    forall t | t in OpenPorts(rules)
      ensures '\n' !in t
    {
      assert NoSpace(t) && IsSpace('\n');
    }
  }

  lemma OpenTextOneLine(rules: seq<PortRule>)
    requires AllOpen(rules)
    ensures '\n' !in OpenText(rules)
  {
    OpenPortsOneLine(rules);
    JoinWithout(OpenPorts(rules), ' ', '\n');
    assert '\n' !in "ports:" && '\n' !in " ";
  }

  lemma OpenTextFields(rules: seq<PortRule>)
    requires AllOpen(rules)
    ensures PortsOfTokens(Fields(OpenText(rules)[6..])) == Opened(rules)
  {
    OpenPortsRead(rules);
    OpenPortsAreTokens(rules);
    var rest := OpenText(rules)[6..];
    if rules == [] {
      assert rest == "";
    } else {
      assert rest[0] == ' ' && rest[1..] == Join(OpenPorts(rules), ' ');
      FieldsJoin(OpenPorts(rules));
    }
  }

  /** A line of open ports is read back as rules that allow exactly them. */
  lemma PortsLineRoundTrip(rules: seq<PortRule>, indent: string, validIP: string -> bool)
    requires AllOpen(rules) && IsIndent(indent)
    ensures ParseLine(indent + OpenText(rules), validIP) == Some(Opened(rules)) && '\n' !in indent + OpenText(rules)
  {
    var text := OpenText(rules);
    OpenTextEnds(rules);
    OpenTextOneLine(rules);
    TrimIndent(indent, text);
    assert text[..6] == "ports:";
    OpenTextFields(rules);
  }

  lemma {:induction false} TrimMoreIndent(indent: string, text: string)
    requires IsIndent(indent)
    ensures TrimSpace(indent + text) == TrimSpace(text)
    decreases |indent|
  {
    if indent == [] {
      assert indent + text == text;
    } else {
      assert (indent + text)[1..] == indent[1..] + text;
      TrimMoreIndent(indent[1..], text);
    }
  }

  lemma OtherLineReads(text: string, indent: string, validIP: string -> bool)
    requires IsIndent(indent) && ValidItem(OtherItem(text), validIP)
    ensures ParseLine(indent + text, validIP) == Some([]) && '\n' !in indent + text
  {
    TrimMoreIndent(indent, text);
  }

  // ---------- When the program panics ----------

  /** The line ends with the first occurrence of the key. */
  predicate EndsAt(line: string, key: string) {
    |key| <= |line| && Index(line, key) == Some(|line| - |key|)
  }

  predicate NamesPort(line: string) {
    var port, proto := RichAttr(line, "port port="), RichAttr(line, "protocol=");
    port.Value? && proto.Value? && ValidProto(proto.text) && ParsePortSpec(port.text).Some?
  }

  /** The line of a rule ends where a value is read: the port, the protocol, or the source once the others are fine. */
  predicate CutShort(line: string) {
    EndsAt(line, "port port=") || EndsAt(line, "protocol=") || (NamesPort(line) && EndsAt(line, "source address="))
  }

  lemma EmptyIsNoPort()
    ensures ParsePortSpec("").None?
  {
  }

  lemma RichRulePanicsIff(line: string, validIP: string -> bool)
    requires TrimSpace(line) == line
    ensures ParseRichRule(line, validIP).Panics? <==> CutShort(line)
  {
    RichAttrPanicsIff(line, "port port=");
    RichAttrPanicsIff(line, "protocol=");
    RichAttrPanicsIff(line, "source address=");
    EmptyIsNoPort();
  }

  predicate BadLine(raw: string) {
    var line := TrimSpace(raw);
    !HasPrefix(line, "ports:") && HasPrefix(line, "rule ") && CutShort(line)
  }

  lemma LinePanicsIff(raw: string, validIP: string -> bool)
    ensures ParseLine(raw, validIP).None? <==> BadLine(raw)
  {
    TrimSpaceEnds(raw);
    RichRulePanicsIff(TrimSpace(raw), validIP);
  }

  predicate AnyBad(lines: seq<string>) {
    exists i :: 0 <= i < |lines| && BadLine(lines[i])
  }

  lemma AnyBadSnoc(front: seq<string>, last: string)
    ensures AnyBad(front + [last]) <==> AnyBad(front) || BadLine(last)
  {
    var all := front + [last];
    assert all[|front|] == last && forall i :: 0 <= i < |front| ==> all[i] == front[i];
  }

  lemma {:induction false} LinesPanicIff(lines: seq<string>, validIP: string -> bool)
    ensures ParseLines(lines, validIP).None? <==> AnyBad(lines)
  {
    if lines != [] {
      var front, last := lines[..|lines| - 1], lines[|lines| - 1];
      LinesPanicIff(front, validIP);
      LinePanicsIff(last, validIP);
      AnyBadSnoc(front, last);
      FrontAndLast(lines);
    }
  }

  /** The parser of a listing panics if and only if some line of it is a rule that is cut short. */
  lemma ListingPanicsIff(out: string, validIP: string -> bool)
    ensures ParseRules(out, validIP).None? <==> AnyBad(Split(out, '\n'))
  {
    LinesPanicIff(Split(out, '\n'), validIP);
  }

  /** One such line. */
  lemma CutShortPanics(line: string, validIP: string -> bool)
    requires line == "rule port port="
    ensures ParseRules(line, validIP).None?
  {
    var key := "port port=";
    assert line == "rule " + key + "";
    NoPairWithout("rule p", 'p', 'o');
    IndexFirst("rule ", key, "");
    TrimNoSpace(line);
    assert line[..5] == "rule ";
    assert line[0] == 'r' && !HasPrefix(line, "ports:");
    SplitPlain(line, '\n');
    ListingPanicsIff(line, validIP);
    assert BadLine([line][0]);
  }

  // ---------- Whatever the listing ----------

  /** A token is an open port if and only if it is a valid specification, a slash and a protocol. */
  lemma TokenIsPort(port: string, proto: string)
    requires '/' !in port
    ensures PortOfToken(port) == []
    ensures PortOfToken(port + "/" + proto) ==
            if (proto == "tcp" || proto == "udp") && ParsePortSpec(port).Some?
            then [PortRule("allow", port, proto, "", "")] else []
  {
    IndexByteOf(port, '/', proto);
    assert (port + "/" + proto)[..|port|] == port && (port + "/" + proto)[|port| + 1..] == proto;
  }

  /** A rule as the rest of the program expects it. */
  predicate Acceptable(r: PortRule, validIP: string -> bool) {
    (r.action == "allow" || r.action == "deny") && (r.proto == "tcp" || r.proto == "udp") &&
    ParsePortSpec(r.port).Some? && (r.source == "" || validIP(r.source)) && r.comment == ""
  }

  lemma {:induction false} TokensAreAcceptable(tokens: seq<string>, validIP: string -> bool)
    ensures forall r :: r in PortsOfTokens(tokens) ==> Acceptable(r, validIP)
  {
    if tokens != [] {
      TokensAreAcceptable(tokens[..|tokens| - 1], validIP);
    }
  }

  lemma LineIsAcceptable(raw: string, validIP: string -> bool)
    ensures var rules := ParseLine(raw, validIP); rules.Some? ==> forall r :: r in rules.value ==> Acceptable(r, validIP)
  {
    var line := TrimSpace(raw);
    if HasPrefix(line, "ports:") {
      TokensAreAcceptable(Fields(line[6..]), validIP);
    }
  }

  lemma {:induction false} LinesAreAcceptable(lines: seq<string>, validIP: string -> bool)
    ensures var rules := ParseLines(lines, validIP); rules.Some? ==> forall r :: r in rules.value ==> Acceptable(r, validIP)
  {
    if lines != [] {
      LinesAreAcceptable(lines[..|lines| - 1], validIP);
      LineIsAcceptable(lines[|lines| - 1], validIP);
    }
  }

  /** Whatever a listing says, every rule that is read from it is valid. */
  lemma ListingIsAcceptable(out: string, validIP: string -> bool)
    ensures var rules := ParseRules(out, validIP); rules.Some? ==> forall r :: r in rules.value ==> Acceptable(r, validIP)
  {
    LinesAreAcceptable(Split(out, '\n'), validIP);
  }
}

/**
 aws_posture.py's security-group check. A rule's ports are scanned one by one, but only the
 first 65 of a range, however wide; with at most 64 expected entries that misses nothing.
 */
module PortScan {
  import opened Sets
  import opened Text

  /** What EXPECTED_OPEN lists: a port, as text, and a protocol. */
  type Expected = set<(string, string)>

  /** FromPort and ToPort; absent from a rule for all traffic. */
  datatype Ports = Ports(lo: int, hi: int)

  datatype Rule = Rule(protocol: Option<string>, ports: Option<Ports>, ranges: seq<string>, ranges6: seq<string>)

  datatype Group = Group(name: string, rules: seq<Rule>)

  const REACH := 64

  // --- Ports as text ---

  /** str(n) */
  function Decimal(n: int): string {
    if n < 0 then "-" + Digits(-n) else Digits(n)
  }

  lemma DecimalIsInjective(m: int, n: int)
    requires Decimal(m) == Decimal(n)
    ensures m == n
  {
    DigitsRoundTrip(if m < 0 then -m else m);
    DigitsRoundTrip(if n < 0 then -n else n);
    assert m < 0 ==> Decimal(m)[0] == '-' && Decimal(m)[1..] == Digits(-m);
    assert n < 0 ==> Decimal(n)[0] == '-' && Decimal(n)[1..] == Digits(-n);
  }

  // --- Scanning ---

  predicate IsExpected(expected: Expected, protocol: string, port: int) {
    (Decimal(port), protocol) in expected
  }

  /** Some port from `lo` to `hi` is unexpected. */
  ghost predicate AnyUnexpected(expected: Expected, protocol: string, lo: int, hi: int) {
    exists port :: lo <= port <= hi && !IsExpected(expected, protocol, port)
  }

  function Last(ports: Ports): int {
    if ports.hi < ports.lo + REACH then ports.hi else ports.lo + REACH
  }

  function Window(protocol: string, lo: int, n: nat): Expected {
    set port | lo <= port < lo + n :: (Decimal(port), protocol)
  }

  lemma WindowGrows(protocol: string, lo: int, n: nat)
    ensures (Decimal(lo + n), protocol) !in Window(protocol, lo, n)
    ensures Window(protocol, lo, n + 1) == Window(protocol, lo, n) + {(Decimal(lo + n), protocol)}
  {
    forall port | lo <= port < lo + n ensures Decimal(port) != Decimal(lo + n) {
      if Decimal(port) == Decimal(lo + n) {
        DecimalIsInjective(port, lo + n);
      }
    }
  }

  lemma {:induction false} WindowSize(protocol: string, lo: int, n: nat)
    ensures |Window(protocol, lo, n)| == n
  {
    if n == 0 {
      assert Window(protocol, lo, n) == {};
    } else {
      WindowSize(protocol, lo, n - 1);
      WindowGrows(protocol, lo, n - 1);
    }
  }

  /** Among more ports than there are expected entries, one is unexpected. */
  lemma Pigeonhole(expected: Expected, protocol: string, lo: int, n: nat)
    requires |expected| < n
    ensures AnyUnexpected(expected, protocol, lo, lo + n - 1)
  {
    WindowSize(protocol, lo, n);
    if Window(protocol, lo, n) <= expected {
      SubsetSize(Window(protocol, lo, n), expected);
    } else {
      var entry :| entry in Window(protocol, lo, n) && entry !in expected;
      var port :| lo <= port < lo + n && entry == (Decimal(port), protocol);
      assert !IsExpected(expected, protocol, port);
    }
  }

  /** The scan and the whole range agree about every rule. */
  ghost predicate IsExact(expected: Expected, protocol: string) {
    forall lo, hi ::
      AnyUnexpected(expected, protocol, lo, Last(Ports(lo, hi))) <==> AnyUnexpected(expected, protocol, lo, hi)
  }

  /** The 65 ports from `lo` on are not all expected. */
  ghost predicate RunEnds(expected: Expected, protocol: string, lo: int) {
    AnyUnexpected(expected, protocol, lo, lo + REACH)
  }

  lemma ExactIfRunsEnd(expected: Expected, protocol: string)
    requires forall lo :: RunEnds(expected, protocol, lo)
    ensures IsExact(expected, protocol)
  {
    forall lo, hi
      ensures AnyUnexpected(expected, protocol, lo, Last(Ports(lo, hi))) <==> AnyUnexpected(expected, protocol, lo, hi)
    {
      assert RunEnds(expected, protocol, lo);
    }
  }

  lemma LongRunNeedsLongList(expected: Expected, protocol: string, lo: int)
    requires !RunEnds(expected, protocol, lo)
    ensures |expected| > REACH
  {
    if |expected| <= REACH {
      Pigeonhole(expected, protocol, lo, REACH + 1);
    }
  }

  lemma LongRunHides(expected: Expected, protocol: string, lo: int)
    requires !RunEnds(expected, protocol, lo)
    ensures !IsExact(expected, protocol)
  {
    LongRunNeedsLongList(expected, protocol, lo);
    Pigeonhole(expected, protocol, lo, |expected| + 1);
    assert AnyUnexpected(expected, protocol, lo, lo + |expected|);
    assert Last(Ports(lo, lo + |expected|)) == lo + REACH;
  }

  /** Scanning 65 ports is exact exactly when no 65 ports in a row are all expected. */
  lemma ExactExactlyWithoutLongRun(expected: Expected, protocol: string)
    ensures IsExact(expected, protocol) <==> forall lo :: RunEnds(expected, protocol, lo)
  {
    if forall lo :: RunEnds(expected, protocol, lo) {
      ExactIfRunsEnd(expected, protocol);
    } else {
      var lo :| !RunEnds(expected, protocol, lo);
      LongRunHides(expected, protocol, lo);
    }
  }

  /** So it is exact for any list of at most 64 entries. */
  lemma ShortListIsExact(expected: Expected, protocol: string)
    requires |expected| <= REACH
    ensures IsExact(expected, protocol)
  {
    forall lo ensures RunEnds(expected, protocol, lo) {
      Pigeonhole(expected, protocol, lo, REACH + 1);
    }
    ExactIfRunsEnd(expected, protocol);
  }

  /** And 64 is the most: one more entry can hide an open port. */
  lemma OneMoreEntryCanHide(protocol: string)
    ensures !IsExact(Window(protocol, 0, REACH + 1), protocol) && |Window(protocol, 0, REACH + 1)| == REACH + 1
  {
    var expected := Window(protocol, 0, REACH + 1);
    WindowSize(protocol, 0, REACH + 1);
    forall port | 0 <= port <= REACH ensures IsExpected(expected, protocol, port) {
      assert (Decimal(port), protocol) in expected;
    }
    LongRunHides(expected, protocol, 0);
  }

  // --- EXPECTED_OPEN ---

  /** "tcp/80" is ("80", "tcp"); an entry without a slash or a port is left out. */
  function Entry(text: string): Option<(string, string)> {
    var s := Strip(text);
    var k := Find(s, '/');
    if k >= |s| - 1 then None else Some((s[k + 1..], s[..k]))
  }

  function Entries(texts: seq<string>): Expected {
    if texts == [] then {}
    else (if Entry(texts[0]).Some? then {Entry(texts[0]).value} else {}) + Entries(texts[1..])
  }

  function ExpectedOpen(setting: string): Expected {
    Entries(Split(setting, ','))
  }

  /** The port stands behind the first slash, and the protocol before it. */
  lemma EntryExactly(text: string, port: string, protocol: string)
    ensures Entry(text) == Some((port, protocol)) <==>
            port != "" && '/' !in protocol && Strip(text) == protocol + "/" + port
  {
    var s := Strip(text);
    var k := Find(s, '/');
    if k < |s| {
      assert s == s[..k] + "/" + s[k + 1..];
    }
    if '/' !in protocol && s == protocol + "/" + port {
      FindAfter(protocol, '/', port);
      assert s[k + 1..] == port && s[..k] == protocol;
    }
  }

  lemma {:induction false} EntriesHold(texts: seq<string>, port: string, protocol: string)
    ensures (port, protocol) in Entries(texts) <==> exists text :: text in texts && Entry(text) == Some((port, protocol))
  {
    if texts == [] {
    } else {
      EntriesHold(texts[1..], port, protocol);
      assert texts == [texts[0]] + texts[1..];
    }
  }

  /** What is expected is what some part of the setting says, white space around it apart. */
  lemma ExpectedOpenExactly(setting: string, port: string, protocol: string)
    ensures (port, protocol) in ExpectedOpen(setting) <==>
            port != "" && '/' !in protocol
            && exists part :: part in Split(setting, ',') && Strip(part) == protocol + "/" + port
  {
    EntriesHold(Split(setting, ','), port, protocol);
    forall part ensures Entry(part) == Some((port, protocol)) <==>
                        port != "" && '/' !in protocol && Strip(part) == protocol + "/" + port
    {
      EntryExactly(part, port, protocol);
    }
  }

  lemma EntriesOfThree(a: string, b: string, c: string)
    requires Entry(a).Some? && Entry(b).Some? && Entry(c).Some?
    ensures Entries([a, b, c]) == {Entry(a).value, Entry(b).value, Entry(c).value}
  {
    assert [a, b, c][1..] == [b, c] && [b, c][1..] == [c] && |[c][1..]| == 0;
    assert Entries([c]) == {Entry(c).value};
    assert Entries([b, c]) == {Entry(b).value} + Entries([c]);
  }

  lemma JoinOfThree(a: string, b: string, c: string)
    requires ',' !in a && ',' !in b && ',' !in c
    ensures Split(a + "," + b + "," + c, ',') == [a, b, c]
  {
    JoinCons(b, [c], ',');
    JoinCons(a, [b, c], ',');
    assert [a] + ([b] + [c]) == [a, b, c] && [b] + [c] == [b, c];
    Reassociate(a + ",", b + ",", c);
    Reassociate(a + ",", b, ",");
    SplitJoin([a, b, c], ',');
  }

  lemma StrippedAlready(s: string)
    requires s != "" && !IsSpace(s[0]) && !IsSpace(s[|s| - 1])
    ensures Strip(s) == s
  {
  }

  predicate IsPlainWord(s: string) {
    s != "" && forall c :: c in s ==> !IsSpace(c) && c != ',' && c != '/'
  }

  lemma PlainEntry(protocol: string, port: string)
    requires IsPlainWord(protocol) && IsPlainWord(port)
    ensures Entry(protocol + "/" + port) == Some((port, protocol)) && ',' !in protocol + "/" + port
  {
    var s := protocol + "/" + port;
    assert s[0] == protocol[0] && s[|s| - 1] == port[|port| - 1];
    StrippedAlready(s);
    EntryExactly(s, port, protocol);
  }

  /** A setting of three plain entries lists just these. */
  lemma ThreePlainEntries(a: string, m: string, b: string, n: string, c: string, o: string)
    requires IsPlainWord(a) && IsPlainWord(b) && IsPlainWord(c) && IsPlainWord(m) && IsPlainWord(n) && IsPlainWord(o)
    ensures ExpectedOpen((a + "/" + m) + "," + (b + "/" + n) + "," + (c + "/" + o)) == {(m, a), (n, b), (o, c)}
  {
    PlainEntry(a, m);
    PlainEntry(b, n);
    PlainEntry(c, o);
    JoinOfThree(a + "/" + m, b + "/" + n, c + "/" + o);
    EntriesOfThree(a + "/" + m, b + "/" + n, c + "/" + o);
  }

  lemma DefaultSetting()
    ensures ExpectedOpen("tcp/80,tcp/443,udp/51820") == {("80", "tcp"), ("443", "tcp"), ("51820", "udp")}
  {
    ThreePlainEntries("tcp", "80", "tcp", "443", "udp", "51820");
    DefaultText();
  }

  lemma DefaultText()
    ensures ("tcp" + "/" + "80") + "," + ("tcp" + "/" + "443") + "," + ("udp" + "/" + "51820") == "tcp/80,tcp/443,udp/51820"
  {
  }

  lemma {:induction false} NoMoreEntriesThanTexts(texts: seq<string>)
    ensures |Entries(texts)| <= |texts|
  {
    if texts == [] {
    } else {
      NoMoreEntriesThanTexts(texts[1..]);
    }
  }

  /** A setting with at most 64 comma-separated parts makes the scan exact for every protocol. */
  lemma ShortSettingIsExact(setting: string, protocol: string)
    requires |Split(setting, ',')| <= REACH
    ensures IsExact(ExpectedOpen(setting), protocol)
  {
    NoMoreEntriesThanTexts(Split(setting, ','));
    ShortListIsExact(ExpectedOpen(setting), protocol);
  }

  // --- The report ---

  function Protocol(rule: Rule): string {
    if rule.protocol.Some? then rule.protocol.value else "-1"
  }

  predicate IsWorld(rule: Rule) {
    "0.0.0.0/0" in rule.ranges || "::/0" in rule.ranges6
  }

  function Span(ports: Ports): string {
    if ports.hi != ports.lo then Decimal(ports.lo) + "-" + Decimal(ports.hi) else Decimal(ports.lo)
  }

  function AllTraffic(name: string): string {
    "Security group " + name + ": ALL traffic open to the internet"
  }

  function OpenPorts(name: string, protocol: string, ports: Ports): string {
    "Security group " + name + ": " + protocol + "/" + Span(ports) + " open to the internet"
  }

  /** Whether a rule open to the world calls for a line: as the documentation promises, which is that
      anything open beyond the expected ports is reported, or by the ports that are scanned. A rule whose
      last port is below its first, as an ICMP type without a code is, still opens its first. */
  ghost predicate CallsForLine(expected: Expected, protocol: string, ports: Ports, promised: bool) {
    if promised then AnyUnexpected(expected, protocol, ports.lo, if ports.hi < ports.lo then ports.lo else ports.hi)
    else AnyUnexpected(expected, protocol, ports.lo, Last(ports))
  }

  ghost function RuleLines(expected: Expected, name: string, rule: Rule, promised: bool): seq<string> {
    if !IsWorld(rule) then []
    else if Protocol(rule) == "-1" || rule.ports.None? then [AllTraffic(name)]
    else if CallsForLine(expected, Protocol(rule), rule.ports.value, promised)
    then [OpenPorts(name, Protocol(rule), rule.ports.value)]
    else []
  }

  ghost function GroupLines(expected: Expected, name: string, rules: seq<Rule>, promised: bool): seq<string> {
    if rules == [] then []
    else
      GroupLines(expected, name, rules[..|rules| - 1], promised) + RuleLines(expected, name, rules[|rules| - 1], promised)
  }

  ghost function PageLines(expected: Expected, groups: seq<Group>, promised: bool): seq<string> {
    if groups == [] then []
    else
      var last := groups[|groups| - 1];
      PageLines(expected, groups[..|groups| - 1], promised) + GroupLines(expected, last.name, last.rules, promised)
  }

  ghost function Report(expected: Expected, pages: seq<seq<Group>>, promised: bool): seq<string> {
    if pages == [] then []
    else Report(expected, pages[..|pages| - 1], promised) + PageLines(expected, pages[|pages| - 1], promised)
  }

  // --- Rules, groups and pages are reported one after the other ---

  lemma OneMoreRule(expected: Expected, name: string, rules: seq<Rule>, rule: Rule, promised: bool)
    ensures GroupLines(expected, name, rules + [rule], promised) ==
            GroupLines(expected, name, rules, promised) + RuleLines(expected, name, rule, promised)
  {
    assert (rules + [rule])[..|rules|] == rules;
  }

  lemma {:induction false} GroupLinesTogether(expected: Expected, name: string, a: seq<Rule>, b: seq<Rule>, promised: bool)
    ensures GroupLines(expected, name, a + b, promised) ==
            GroupLines(expected, name, a, promised) + GroupLines(expected, name, b, promised)
  {
    if b == [] {
      assert a + b == a;
    } else {
      var init, rule := b[..|b| - 1], b[|b| - 1];
      assert b == init + [rule] && a + b == a + init + [rule];
      GroupLinesTogether(expected, name, a, init, promised);
      OneMoreRule(expected, name, init, rule, promised);
      OneMoreRule(expected, name, a + init, rule, promised);
      Reassociate(GroupLines(expected, name, a, promised), GroupLines(expected, name, init, promised),
                  RuleLines(expected, name, rule, promised));
    }
  }

  lemma OneMoreGroup(expected: Expected, groups: seq<Group>, g: Group, promised: bool)
    ensures PageLines(expected, groups + [g], promised) ==
            PageLines(expected, groups, promised) + GroupLines(expected, g.name, g.rules, promised)
  {
    assert (groups + [g])[..|groups|] == groups;
  }

  lemma {:induction false} PageLinesTogether(expected: Expected, a: seq<Group>, b: seq<Group>, promised: bool)
    ensures PageLines(expected, a + b, promised) == PageLines(expected, a, promised) + PageLines(expected, b, promised)
  {
    if b == [] {
      assert a + b == a;
    } else {
      var init, g := b[..|b| - 1], b[|b| - 1];
      assert b == init + [g] && a + b == a + init + [g];
      PageLinesTogether(expected, a, init, promised);
      OneMoreGroup(expected, init, g, promised);
      OneMoreGroup(expected, a + init, g, promised);
      Reassociate(PageLines(expected, a, promised), PageLines(expected, init, promised),
                  GroupLines(expected, g.name, g.rules, promised));
    }
  }

  lemma {:induction false} ReportTogether(expected: Expected, a: seq<seq<Group>>, b: seq<seq<Group>>, promised: bool)
    ensures Report(expected, a + b, promised) == Report(expected, a, promised) + Report(expected, b, promised)
  {
    if b == [] {
      assert a + b == a;
    } else {
      assert (a + b)[..|a + b| - 1] == a + b[..|b| - 1];
      ReportTogether(expected, a, b[..|b| - 1], promised);
    }
  }

  lemma OnePage(expected: Expected, name: string, rule: Rule, promised: bool)
    ensures Report(expected, [[Group(name, [rule])]], promised) == RuleLines(expected, name, rule, promised)
  {
    var group := Group(name, [rule]);
    assert [rule][..0] == [] && [group][..0] == [] && [[group]][..0] == [];
    assert GroupLines(expected, name, [rule], promised) == RuleLines(expected, name, rule, promised);
    assert PageLines(expected, [group], promised) == GroupLines(expected, name, [rule], promised);
  }

  lemma SpanExamples()
    ensures Decimal(22) == "22" && Span(Ports(22, 22)) == "22" && Span(Ports(8000, 9000)) == "8000-9000"
  {
    assert Digits(8) == "8" && Digits(80) == "80" && Digits(800) == "800" && Digits(8000) == "8000";
    assert Digits(9) == "9" && Digits(90) == "90" && Digits(900) == "900" && Digits(9000) == "9000";
    assert Digits(2) == "2" && Digits(22) == "22";
  }

  /** A rule for one port, over IPv4, and one for a range, over IPv6. */
  lemma OpenRuleExamples(expected: Expected, name: string)
    requires |expected| <= REACH && ("22", "tcp") !in expected
    ensures RuleLines(expected, name, Rule(Some("tcp"), Some(Ports(22, 22)), ["10.0.0.0/8", "0.0.0.0/0"], []), false)
         == ["Security group " + name + ": " + "tcp" + "/" + "22" + " open to the internet"]
    ensures RuleLines(expected, name, Rule(Some("udp"), Some(Ports(8000, 9000)), [], ["::/0"]), false)
         == ["Security group " + name + ": " + "udp" + "/" + "8000-9000" + " open to the internet"]
  {
    SpanExamples();
    OnePortIsReported(expected, "tcp", 22);
    Pigeonhole(expected, "udp", 8000, REACH + 1);
  }

  lemma OnePortIsReported(expected: Expected, protocol: string, port: int)
    requires (Decimal(port), protocol) !in expected
    ensures AnyUnexpected(expected, protocol, port, Last(Ports(port, port)))
  {
    assert !IsExpected(expected, protocol, port);
  }

  /** All traffic, said in three ways, and ranges that are not the world. */
  lemma OtherRuleExamples(expected: Expected, name: string, ports: Ports)
    ensures var all := ["Security group " + name + ": ALL traffic open to the internet"];
            && RuleLines(expected, name, Rule(None, Some(ports), ["0.0.0.0/0"], []), false) == all
            && RuleLines(expected, name, Rule(Some("-1"), Some(ports), ["0.0.0.0/0"], []), false) == all
            && RuleLines(expected, name, Rule(Some("tcp"), None, ["0.0.0.0/0"], []), false) == all
    ensures RuleLines(expected, name, Rule(Some("tcp"), Some(ports), ["10.0.0.0/8", "::/0"], ["0.0.0.0/0"]), false) == []
  {
  }

  ghost predicate IsAlwaysExact(expected: Expected) {
    forall protocol :: protocol != "-1" ==> IsExact(expected, protocol)
  }

  // --- Where a line is missing ---

  /** A rule with ports that is open to the world. */
  predicate IsOpenRule(rule: Rule) {
    IsWorld(rule) && Protocol(rule) != "-1" && rule.ports.Some?
  }

  /** Such a rule gets no line exactly if all that is scanned of it is expected. */
  lemma SilentExactly(expected: Expected, name: string, rule: Rule)
    requires IsOpenRule(rule)
    ensures RuleLines(expected, name, rule, false) == [] <==>
            var ports := rule.ports.value;
            forall port :: ports.lo <= port <= Last(ports) ==> IsExpected(expected, Protocol(rule), port)
  {
    var ports := rule.ports.value;
    if forall port :: ports.lo <= port <= Last(ports) ==> IsExpected(expected, Protocol(rule), port) {
      assert !AnyUnexpected(expected, Protocol(rule), ports.lo, Last(ports));
    }
  }

  /** With nothing of its protocol expected, it is the empty ranges that get no line. */
  lemma UnlistedSilentExactlyWhenEmpty(expected: Expected, name: string, rule: Rule)
    requires IsOpenRule(rule) && forall entry :: entry in expected ==> entry.1 != Protocol(rule)
    ensures RuleLines(expected, name, rule, false) == [] <==> rule.ports.value.hi < rule.ports.value.lo
  {
    SilentExactly(expected, name, rule);
    var ports := rule.ports.value;
    if ports.lo <= ports.hi {
      assert !IsExpected(expected, Protocol(rule), ports.lo);
    }
  }

  /** All of ICMP type 8, echo requests, open to the world: no line, whatever is expected. */
  lemma TypeWithoutCodeIsSilent(expected: Expected, name: string)
    ensures var rule := Rule(Some("icmp"), Some(Ports(8, -1)), ["0.0.0.0/0"], []);
            && RuleLines(expected, name, rule, false) == []
            && (("8", "icmp") !in expected ==> RuleLines(expected, name, rule, true) != [])
  {
    var rule := Rule(Some("icmp"), Some(Ports(8, -1)), ["0.0.0.0/0"], []);
    SilentExactly(expected, name, rule);
    assert Decimal(8) == "8";
    assert ("8", "icmp") !in expected ==> !IsExpected(expected, "icmp", 8);
  }

  /** Its range is empty, and the port it starts at is not expected. */
  predicate IsMissed(expected: Expected, rule: Rule) {
    IsOpenRule(rule) && rule.ports.value.hi < rule.ports.value.lo
    && !IsExpected(expected, Protocol(rule), rule.ports.value.lo)
  }

  predicate GroupMisses(expected: Expected, rules: seq<Rule>) {
    exists rule :: rule in rules && IsMissed(expected, rule)
  }

  predicate PageMisses(expected: Expected, groups: seq<Group>) {
    exists group :: group in groups && GroupMisses(expected, group.rules)
  }

  predicate Misses(expected: Expected, pages: seq<seq<Group>>) {
    exists groups :: groups in pages && PageMisses(expected, groups)
  }

  /** Lines that are all there, or some of them. */
  ghost predicate Agree(scanned: seq<string>, promised: seq<string>, missing: bool) {
    |scanned| <= |promised| && (|scanned| == |promised| ==> !missing) && (!missing ==> scanned == promised)
  }

  lemma AgreeTogether(a: seq<string>, a': seq<string>, b: seq<string>, b': seq<string>, m: bool, n: bool)
    requires Agree(a, a', m) && Agree(b, b', n)
    ensures Agree(a + b, a' + b', m || n)
  {
  }

  lemma RuleLinesAgree(expected: Expected, name: string, rule: Rule)
    requires IsAlwaysExact(expected)
    ensures Agree(RuleLines(expected, name, rule, false), RuleLines(expected, name, rule, true), IsMissed(expected, rule))
  {
    if IsOpenRule(rule) {
      var protocol, ports := Protocol(rule), rule.ports.value;
      assert IsExact(expected, protocol) && ports == Ports(ports.lo, ports.hi);
      if ports.hi < ports.lo {
        assert AnyUnexpected(expected, protocol, ports.lo, ports.lo) <==> !IsExpected(expected, protocol, ports.lo);
      }
    }
  }

  lemma {:induction false} GroupLinesAgree(expected: Expected, name: string, rules: seq<Rule>)
    requires IsAlwaysExact(expected)
    ensures Agree(GroupLines(expected, name, rules, false), GroupLines(expected, name, rules, true), GroupMisses(expected, rules))
  {
    if rules == [] {
    } else {
      var init, last := rules[..|rules| - 1], rules[|rules| - 1];
      assert rules == init + [last];
      GroupLinesAgree(expected, name, init);
      RuleLinesAgree(expected, name, last);
      AgreeTogether(GroupLines(expected, name, init, false), GroupLines(expected, name, init, true),
                    RuleLines(expected, name, last, false), RuleLines(expected, name, last, true),
                    GroupMisses(expected, init), IsMissed(expected, last));
    }
  }

  lemma {:induction false} PageLinesAgree(expected: Expected, groups: seq<Group>)
    requires IsAlwaysExact(expected)
    ensures Agree(PageLines(expected, groups, false), PageLines(expected, groups, true), PageMisses(expected, groups))
  {
    if groups == [] {
    } else {
      var init, last := groups[..|groups| - 1], groups[|groups| - 1];
      assert groups == init + [last];
      PageLinesAgree(expected, init);
      GroupLinesAgree(expected, last.name, last.rules);
      AgreeTogether(PageLines(expected, init, false), PageLines(expected, init, true),
                    GroupLines(expected, last.name, last.rules, false), GroupLines(expected, last.name, last.rules, true),
                    PageMisses(expected, init), GroupMisses(expected, last.rules));
    }
  }

  lemma {:induction false} ReportsAgree(expected: Expected, pages: seq<seq<Group>>)
    requires IsAlwaysExact(expected)
    ensures Agree(Report(expected, pages, false), Report(expected, pages, true), Misses(expected, pages))
  {
    if pages == [] {
    } else {
      var init, last := pages[..|pages| - 1], pages[|pages| - 1];
      assert pages == init + [last];
      ReportsAgree(expected, init);
      PageLinesAgree(expected, last);
      AgreeTogether(Report(expected, init, false), Report(expected, init, true),
                    PageLines(expected, last, false), PageLines(expected, last, true),
                    Misses(expected, init), PageMisses(expected, last));
    }
  }

  /** With a list the scan is exact for, the report of an account is what is promised exactly if no
      rule in it has an empty range that starts at an unexpected port. */
  lemma AccountIsRightExactly(expected: Expected, pages: seq<seq<Group>>)
    requires IsAlwaysExact(expected)
    ensures Report(expected, pages, false) == Report(expected, pages, true) <==> !Misses(expected, pages)
  {
    ReportsAgree(expected, pages);
  }

  /** One group with one rule, open to the world. */
  function OneRule(protocol: string, ports: Ports): seq<seq<Group>> {
    [[Group("", [Rule(Some(protocol), Some(ports), ["0.0.0.0/0"], [])])]]
  }

  lemma ReportOfOneRule(expected: Expected, protocol: string, ports: Ports, promised: bool)
    requires protocol != "-1"
    ensures Report(expected, OneRule(protocol, ports), promised) == [] <==> !CallsForLine(expected, protocol, ports, promised)
  {
    OnePage(expected, "", Rule(Some(protocol), Some(ports), ["0.0.0.0/0"], []), promised);
  }

  /** Such accounts apart, the report is what is promised, on every account, exactly when the list is
      one the scan is exact for. */
  lemma ReportIsRightExactly(expected: Expected)
    ensures IsAlwaysExact(expected) <==>
            forall pages :: !Misses(expected, pages) ==> Report(expected, pages, false) == Report(expected, pages, true)
  {
    if IsAlwaysExact(expected) {
      forall pages | !Misses(expected, pages) ensures Report(expected, pages, false) == Report(expected, pages, true) {
        ReportsAgree(expected, pages);
      }
    } else {
      var protocol :| protocol != "-1" && !IsExact(expected, protocol);
      var lo, hi :| AnyUnexpected(expected, protocol, lo, Last(Ports(lo, hi))) != AnyUnexpected(expected, protocol, lo, hi);
      assert lo <= hi;
      ReportOfOneRule(expected, protocol, Ports(lo, hi), true);
      ReportOfOneRule(expected, protocol, Ports(lo, hi), false);
      var pages := OneRule(protocol, Ports(lo, hi));
      assert !Misses(expected, pages);
      assert Report(expected, pages, false) != Report(expected, pages, true);
    }
  }

  // --- The program ---

  /** The innermost loop, over the ports of one rule. */
  method Scan(expected: Expected, protocol: string, ports: Ports) returns (found: bool)
    ensures found <==> AnyUnexpected(expected, protocol, ports.lo, Last(ports))
  {
    var port := ports.lo;
    while port <= Last(ports)
      invariant forall p :: ports.lo <= p < port ==> IsExpected(expected, protocol, p)
    {
      if !IsExpected(expected, protocol, port) {
        return true;
      }
      port := port + 1;
    }
    found := false;
  }

  method RuleReport(expected: Expected, name: string, rule: Rule) returns (lines: seq<string>)
    ensures lines == RuleLines(expected, name, rule, false)
  {
    if !IsWorld(rule) {
      return [];
    }
    if Protocol(rule) == "-1" || rule.ports.None? {
      return [AllTraffic(name)];
    }
    var found := Scan(expected, Protocol(rule), rule.ports.value);
    lines := if found then [OpenPorts(name, Protocol(rule), rule.ports.value)] else [];
  }

  method GroupReport(expected: Expected, group: Group) returns (lines: seq<string>)
    ensures lines == GroupLines(expected, group.name, group.rules, false)
  {
    lines := [];
    for k := 0 to |group.rules|
      invariant lines == GroupLines(expected, group.name, group.rules[..k], false)
    {
      assert group.rules[..k + 1][..k] == group.rules[..k];
      var more := RuleReport(expected, group.name, group.rules[k]);
      lines := lines + more;
    }
    assert group.rules[..|group.rules|] == group.rules;
  }

  method PageReport(expected: Expected, groups: seq<Group>) returns (lines: seq<string>)
    ensures lines == PageLines(expected, groups, false)
  {
    lines := [];
    for j := 0 to |groups|
      invariant lines == PageLines(expected, groups[..j], false)
    {
      assert groups[..j + 1][..j] == groups[..j];
      var more := GroupReport(expected, groups[j]);
      lines := lines + more;
    }
    assert groups[..|groups|] == groups;
  }

  /** _security_groups: with at most 64 entries, what is promised exactly if no empty range is missed. */
  method SecurityGroups(setting: string, pages: seq<seq<Group>>) returns (lines: seq<string>)
    ensures lines == Report(ExpectedOpen(setting), pages, false)
    ensures |ExpectedOpen(setting)| <= 64 ==>
              (lines == Report(ExpectedOpen(setting), pages, true) <==> !Misses(ExpectedOpen(setting), pages))
  {
    var expected := ExpectedOpen(setting);
    lines := [];
    for i := 0 to |pages|
      invariant lines == Report(expected, pages[..i], false)
    {
      assert pages[..i + 1][..i] == pages[..i];
      var more := PageReport(expected, pages[i]);
      lines := lines + more;
    }
    assert pages[..|pages|] == pages;
    if |expected| <= REACH {
      forall protocol ensures IsExact(expected, protocol) {
        ShortListIsExact(expected, protocol);
      }
      AccountIsRightExactly(expected, pages);
    }
  }
}

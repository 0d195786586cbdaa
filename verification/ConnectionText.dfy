/**
 * The text of a connection rule: the grammar that ConnectionRule.parse accepts, its printer,
 * and the draft form that prints new rules.
 *
 * The parts that libraries decide are parameters: whether a URL parser keeps a host as it is
 * written, which address a text spells and whether it is unicast, and the public-suffix table.
 */
module ConnectionText {
  import opened Wrappers
  import opened Characters
  import opened Decimals
  import opened Segments
  import IpTarget

  datatype Mode = HTTPS | WSS

  datatype Port = AllPorts | Port(number: nat)

  datatype Rule = Rule(origin: string, mode: Mode, hostname: string, subdomains: bool, port: Port)

  /** The network 2000::, whose first three bits are those of global unicast addresses, and 3fff::. */
  const GLOBAL_UNICAST: seq<nat> := [0x20, 0, 0, 0, 0, 0, 0, 0, 0, 0, 0, 0, 0, 0, 0, 0]
  const DOCUMENTATION: seq<nat> := [0x3F, 0xFF, 0, 0, 0, 0, 0, 0, 0, 0, 0, 0, 0, 0, 0, 0]

  predicate Leads(a: IpTarget.Address, network: seq<nat>, prefix: nat)
    requires prefix <= 8 * |network|
  {
    |a.bytes| == |network| && IpTarget.PrefixMatch(a.bytes, network, prefix)
  }

  datatype Hosts = Hosts(
    keptByUrl: string -> bool, address: string -> Option<IpTarget.Address>, unicast: IpTarget.Address -> bool,
    belowSuffix: string -> bool)
  {
    predicate IsIp(host: string) {
      address(host).Some?
    }

    predicate IsPublic(a: IpTarget.Address) {
      unicast(a) && (a.family.V6? ==> Leads(a, GLOBAL_UNICAST, 3) && !Leads(a, DOCUMENTATION, 20))
    }

    /**
     * Of a host that a URL parser keeps as it is written: an address has its bytes, its text has hex digits,
     * colons and dots and does not end in a dot, and an opening bracket comes with its closing one.
     */
    ghost predicate Shaped(n: string) {
      && (var h := WithoutBrackets(n);
          IsIp(h) ==>
            && IpTarget.ValidAddress(address(h).value) && h != "" && h[|h| - 1] != '.'
            && forall c | c in h :: IsDigit(c) || 'a' <= c <= 'f' || c == ':' || c == '.')
      && (n != "" && n[0] == '[' ==> |n| > 1 && n[|n| - 1] == ']')
    }

    ghost predicate Reasonable() {
      forall n | keptByUrl(n) :: Shaped(n)
    }
  }

  // ----- hosts -----

  predicate IsAlphanumeric(c: char) {
    IsDigit(c) || 'a' <= c <= 'z'
  }

  /** [a-z0-9](?:[a-z0-9-]*[a-z0-9])? */
  predicate IsLabel(s: string) {
    && s != "" && IsAlphanumeric(s[0]) && IsAlphanumeric(s[|s| - 1])
    && forall c | c in s :: IsAlphanumeric(c) || c == '-'
  }

  const LOCAL_NAMES: set<string> := {"localhost", "local", "internal", "lan", "home"}

  predicate IsPublicName(host: string) {
    var labels := Split(host, '.');
    && |host| <= 253 && |labels| >= 2
    && (forall l | l in labels :: |l| <= 63 && IsLabel(l))
    && Last(labels) !in LOCAL_NAMES && !EndsWith(host, ".home.arpa")
  }

  function WithoutBrackets(hostname: string): string {
    var front := if hostname != "" && hostname[0] == '[' then hostname[1..] else hostname;
    if front != "" && front[|front| - 1] == ']' then front[..|front| - 1] else front
  }

  predicate ValidHost(hosts: Hosts, hostname: string, subdomains: bool) {
    var host := WithoutBrackets(hostname);
    && hosts.keptByUrl(hostname)
    && if hosts.IsIp(host) then !subdomains && hosts.IsPublic(hosts.address(host).value)
       else IsPublicName(host) && (subdomains ==> hosts.belowSuffix(host))
  }

  // ----- parsing -----

  function Scheme(mode: Mode): string {
    match mode case HTTPS => "https://" case WSS => "wss://"
  }

  /** Where the hostname of an authority ends: after the closing bracket, or before the port. */
  function HostnameLength(authority: string): (n: nat)
    ensures n <= |authority|
  {
    if authority != "" && authority[0] == '[' then
      var i := IndexOf(authority, ']');
      if i < |authority| then i + 1 else i
    else IndexOf(authority, ':')
  }

  /** A port that an origin spells out: shortest form, in range, and not the default. */
  function SpelledPort(text: string): Option<nat> {
    if Shortest(text) && Value(text) <= 65535 && Value(text) != 443 then Some(Value(text)) else None
  }

  /** A text that equals its own URL origin, with its hostname and port (None for the default). */
  function ReadAuthority(authority: string): Option<(string, Option<nat>)> {
    var n := HostnameLength(authority);
    var hostname, rest := authority[..n], authority[n..];
    if rest == "" then Some((hostname, None))
    else if rest[0] != ':' then None
    else
      var port := SpelledPort(rest[1..]);
      if port.None? then None else Some((hostname, port))
  }

  function ReadScheme(origin: string): Option<Mode> {
    if Scheme(HTTPS) <= origin then Some(HTTPS) else if Scheme(WSS) <= origin then Some(WSS) else None
  }

  /** What a text spells, before its host is judged. */
  datatype Spelling = Spelling(mode: Mode, subdomains: bool, hostname: string, port: Port)

  predicate HasStar(rest: string) {
    |rest| >= 2 && rest[0] == '*' && rest[1] == '.'
  }

  predicate HasWildcardPort(value: string) {
    |value| >= 2 && value[|value| - 2] == ':' && value[|value| - 1] == '*'
  }

  function ReadHostAndPort(mode: Mode, rest: string, allPorts: bool): Option<Spelling> {
    var subdomains := HasStar(rest);
    var read := ReadAuthority(if subdomains then rest[2..] else rest);
    if read.None? || (allPorts && read.value.1.Some?) then None
    else
      Some(Spelling(mode, subdomains, read.value.0,
                    if allPorts then AllPorts else Port(if read.value.1.Some? then read.value.1.value else 443)))
  }

  function ReadOrigin(origin: string, allPorts: bool): Option<Spelling> {
    var mode := ReadScheme(origin);
    if mode.None? then None else ReadHostAndPort(mode.value, origin[|Scheme(mode.value)|..], allPorts)
  }

  function Read(value: string): Option<Spelling> {
    if HasWildcardPort(value) then ReadOrigin(value[..|value| - 2], true) else ReadOrigin(value, false)
  }

  function Parse(hosts: Hosts, value: string, mode: Option<Mode>): Result<Rule, ()> {
    var s := Read(value);
    if || s.None? || (mode.Some? && s.value.mode != mode.value) || |value| > 512 || s.value.port == Port(0)
       || !ValidHost(hosts, s.value.hostname, s.value.subdomains)
    then Failure(())
    else Success(Rule(value, s.value.mode, s.value.hostname, s.value.subdomains, s.value.port))
  }

  // ----- printing -----

  function PortText(port: Port): string {
    match port
    case AllPorts => ":*"
    case Port(n) => if n == 443 then "" else ":" + Numeral(n)
  }

  function Star(subdomains: bool): string {
    if subdomains then "*." else ""
  }

  function Print(mode: Mode, hostname: string, subdomains: bool, port: Port): string {
    Scheme(mode) + (Star(subdomains) + (hostname + PortText(port)))
  }

  function PrintRule(r: Rule): string {
    Print(r.mode, r.hostname, r.subdomains, r.port)
  }

  /** The shape of a hostname that cannot be confused with what surrounds it. */
  ghost predicate Delimited(hostname: string) {
    && hostname != "" && hostname[0] != '*'
    && if hostname[0] == '[' then IndexOf(hostname, ']') == |hostname| - 1 else ':' !in hostname
  }

  ghost predicate ValidPort(port: Port) {
    port.Port? ==> 1 <= port.number <= 65535
  }

  // ----- round trips -----

  lemma {:induction false} IndexInFront(s: string, t: string, c: char)
    requires c !in s
    ensures IndexOf(s + t, c) == |s| + IndexOf(t, c)
  {
    if s == "" {
      assert s + t == t;
    } else {
      assert (s + t)[1..] == s[1..] + t && (s + t)[0] == s[0] && s[0] in s;
      IndexInFront(s[1..], t, c);
    }
  }

  lemma {:induction false} IndexKept(s: string, t: string, c: char)
    requires IndexOf(s, c) < |s|
    ensures IndexOf(s + t, c) == IndexOf(s, c)
  {
    if s[0] != c {
      assert (s + t)[1..] == s[1..] + t;
      IndexKept(s[1..], t, c);
    }
  }

  /** A delimited hostname is read back, whatever port text follows. */
  lemma HostnameReadBack(hostname: string, tail: string)
    requires Delimited(hostname) && (tail == "" || tail[0] == ':')
    ensures HostnameLength(hostname + tail) == |hostname|
  {
    if hostname[0] == '[' {
      IndexKept(hostname, tail, ']');
    } else {
      IndexInFront(hostname, tail, ':');
    }
  }

  lemma PortReadBack(hostname: string, port: Port)
    requires Delimited(hostname) && ValidPort(port) && port.Port?
    ensures ReadAuthority(hostname + PortText(port)) ==
            Some((hostname, if port.number == 443 then None else Some(port.number)))
  {
    HostnameReadBack(hostname, PortText(port));
    var authority := hostname + PortText(port);
    assert authority[..|hostname|] == hostname && authority[|hostname|..] == PortText(port);
    NumeralRoundTrip(port.number);
    if port.number != 443 {
      assert PortText(port)[1..] == Numeral(port.number);
    }
  }

  lemma PublicNameShape(host: string)
    requires IsPublicName(host)
    ensures host != "" && (forall c | c in host :: IsAlphanumeric(c) || c == '-' || c == '.')
    ensures IsAlphanumeric(host[0]) && IsAlphanumeric(host[|host| - 1])
  {
    SplitCharacters(host, '.');
    SplitEnds(host, '.');
  }

  ghost predicate ValidRule(hosts: Hosts, r: Rule) {
    ValidHost(hosts, r.hostname, r.subdomains) && Delimited(r.hostname) && ValidPort(r.port)
  }

  /** How a hostname is cut out of an authority. */
  ghost predicate Cut(hostname: string) {
    if hostname != "" && hostname[0] == '[' then IndexOf(hostname, ']') >= |hostname| - 1 else ':' !in hostname
  }

  lemma AuthorityIsCut(authority: string)
    ensures Cut(authority[..HostnameLength(authority)])
  {
    var n := HostnameLength(authority);
    if authority != "" && authority[0] == '[' && IndexOf(authority, ']') < |authority| {
      BracketIndex(authority, n - 1);
    }
    assert authority[..|authority|] == authority;
  }

  lemma OriginIsCut(origin: string, allPorts: bool)
    requires ReadOrigin(origin, allPorts).Some?
    ensures var s := ReadOrigin(origin, allPorts).value; Cut(s.hostname) && (s.port != Port(0) ==> ValidPort(s.port))
  {
    var rest := origin[|Scheme(ReadScheme(origin).value)|..];
    AuthorityIsCut(if HasStar(rest) then rest[2..] else rest);
  }

  lemma ReadIsCut(value: string)
    requires Read(value).Some?
    ensures var s := Read(value).value; Cut(s.hostname) && (s.port != Port(0) ==> ValidPort(s.port))
  {
    if HasWildcardPort(value) {
      OriginIsCut(value[..|value| - 2], true);
    } else {
      OriginIsCut(value, false);
    }
  }

  /** The characters of an accepted host, whether a name or an address. */
  lemma HostShape(hosts: Hosts, hostname: string, subdomains: bool)
    requires hosts.Reasonable() && ValidHost(hosts, hostname, subdomains)
    ensures var host := WithoutBrackets(hostname);
            && host != "" && host[|host| - 1] != '.'
            && (forall c | c in host :: IsDigit(c) || 'a' <= c <= 'z' || c == ':' || c == '.' || c == '-')
            && (hostname[0] == '[' ==> |hostname| > 1 && hostname[|hostname| - 1] == ']')
  {
    var host := WithoutBrackets(hostname);
    assert hosts.Shaped(hostname);
    if !hosts.IsIp(host) {
      PublicNameShape(host);
    }
    hide IsPublicName;
  }

  lemma CutIsDelimited(hosts: Hosts, hostname: string, subdomains: bool)
    requires hosts.Reasonable() && ValidHost(hosts, hostname, subdomains) && Cut(hostname)
    ensures Delimited(hostname)
  {
    HostShape(hosts, hostname, subdomains);
    var host := WithoutBrackets(hostname);
    hide ValidHost, Hosts.Reasonable;
    assert host != "" && host[0] in host && host[0] != '*';
    if hostname[0] == '[' {
      assert hostname[|hostname| - 1] == ']' && hostname[..|hostname|] == hostname;
      assert IndexOf(hostname, ']') != |hostname|;
    }
  }

  lemma {:induction false} BracketIndex(s: string, i: nat)
    requires i == IndexOf(s, ']') && i < |s|
    ensures IndexOf(s[..i + 1], ']') == i
  {
    if i == 0 {
    } else {
      assert s[0] != ']' by { assert s[0] == s[..i][0]; }
      assert s[..i + 1][1..] == s[1..][..i];
      BracketIndex(s[1..], i - 1);
    }
  }

  function PrintSpelling(s: Spelling): string {
    Print(s.mode, s.hostname, s.subdomains, s.port)
  }

  lemma AuthorityPrintsBack(authority: string)
    requires ReadAuthority(authority).Some?
    ensures var (hostname, port) := ReadAuthority(authority).value;
            authority == hostname + PortText(Port(if port.Some? then port.value else 443))
  {
    var n := HostnameLength(authority);
    var tail := authority[n..];
    assert authority == authority[..n] + tail;
    if tail != "" {
      ShortestIsNumeral(tail[1..]);
      assert tail == ":" + tail[1..];
    }
  }

  lemma Reassociate(a: string, b: string, c: string, d: string)
    ensures a + (b + (c + d)) == (a + (b + c)) + d
  {
  }

  lemma StarPrintsBack(rest: string)
    ensures rest == Star(HasStar(rest)) + if HasStar(rest) then rest[2..] else rest
  {
  }

  lemma HostAndPortPrintBack(mode: Mode, rest: string, allPorts: bool)
    requires ReadHostAndPort(mode, rest, allPorts).Some?
    ensures var s := ReadHostAndPort(mode, rest, allPorts).value;
            rest == Star(s.subdomains) + (s.hostname + Shown(s.port)) && allPorts == s.port.AllPorts? && s.mode == mode
  {
    StarPrintsBack(rest);
    AuthorityPrintsBack(if HasStar(rest) then rest[2..] else rest);
    var s := ReadHostAndPort(mode, rest, allPorts).value;
    assert s.port.AllPorts? ==> s.hostname + "" == s.hostname;
  }

  lemma OriginPrintsBack(origin: string, allPorts: bool)
    requires ReadOrigin(origin, allPorts).Some?
    ensures var s := ReadOrigin(origin, allPorts).value;
            && origin == Scheme(s.mode) + (Star(s.subdomains) + (s.hostname + Shown(s.port)))
            && allPorts == s.port.AllPorts? && s.hostname + "" == s.hostname
  {
    var mode := ReadScheme(origin).value;
    var rest := origin[|Scheme(mode)|..];
    HostAndPortPrintBack(mode, rest, allPorts);
    assert origin == Scheme(mode) + rest;
  }

  lemma WildcardSplit(value: string)
    requires HasWildcardPort(value)
    ensures value == value[..|value| - 2] + ":*"
  {
  }

  lemma ReadPrintsBack(value: string)
    requires Read(value).Some?
    ensures PrintSpelling(Read(value).value) == value
  {
    var s := Read(value).value;
    if HasWildcardPort(value) {
      var origin := value[..|value| - 2];
      OriginPrintsBack(origin, true);
      Reassociate(Scheme(s.mode), Star(s.subdomains), s.hostname, ":*");
      WildcardSplit(value);
    } else {
      OriginPrintsBack(value, false);
    }
  }

  /** The text that is left of a printed origin once a wildcard port is taken off. */
  function Shown(port: Port): string {
    if port.AllPorts? then "" else PortText(port)
  }

  lemma SchemeReadBack(mode: Mode, rest: string)
    ensures ReadScheme(Scheme(mode) + rest) == Some(mode)
    ensures (Scheme(mode) + rest)[|Scheme(mode)|..] == rest
  {
    assert (Scheme(mode) + rest)[0] == Scheme(mode)[0];
    assert Scheme(mode) <= Scheme(mode) + rest;
  }

  lemma StarReadBack(subdomains: bool, authority: string, hostname: string)
    requires Delimited(hostname) && hostname <= authority
    ensures var rest := Star(subdomains) + authority;
            && (HasStar(rest) <==> subdomains)
            && (if subdomains then rest[2..] else rest) == authority
  {
    var rest := Star(subdomains) + authority;
    assert !subdomains ==> rest[0] == hostname[0];
  }

  lemma HostAndPortReadBack(s: Spelling)
    requires Delimited(s.hostname) && ValidPort(s.port)
    ensures ReadHostAndPort(s.mode, Star(s.subdomains) + (s.hostname + Shown(s.port)), s.port.AllPorts?) == Some(s)
  {
    var authority := s.hostname + Shown(s.port);
    var rest := Star(s.subdomains) + authority;
    StarReadBack(s.subdomains, authority, s.hostname);
    hide HasStar, Star;
    if s.port.AllPorts? {
      HostnameReadBack(s.hostname, "");
      assert authority == s.hostname + "" == s.hostname;
      assert authority[..|s.hostname|] == s.hostname;
    } else {
      PortReadBack(s.hostname, s.port);
    }
  }

  lemma OriginReadBack(s: Spelling)
    requires Delimited(s.hostname) && ValidPort(s.port)
    ensures ReadOrigin(Scheme(s.mode) + (Star(s.subdomains) + (s.hostname + Shown(s.port))), s.port.AllPorts?) ==
              Some(s)
  {
    SchemeReadBack(s.mode, Star(s.subdomains) + (s.hostname + Shown(s.port)));
    HostAndPortReadBack(s);
  }

  lemma PrintReadsBack(s: Spelling)
    requires Delimited(s.hostname) && ValidPort(s.port)
    ensures Read(PrintSpelling(s)) == Some(s)
  {
    var value := PrintSpelling(s);
    OriginReadBack(s);
    if s.port.AllPorts? {
      Reassociate(Scheme(s.mode), Star(s.subdomains), s.hostname, ":*");
      assert s.hostname + "" == s.hostname;
      var origin := Scheme(s.mode) + (Star(s.subdomains) + s.hostname);
      assert value == origin + ":*";
      assert HasWildcardPort(value) && value[..|value| - 2] == origin;
    } else {
      NotWildcardPort(s.hostname, Shown(s.port), Scheme(s.mode), Star(s.subdomains));
    }
  }

  /** An accepted text is exactly what its rule prints, so distinct texts give distinct rules. */
  lemma ParsedPrintsBack(hosts: Hosts, value: string, mode: Option<Mode>)
    requires hosts.Reasonable() && Parse(hosts, value, mode).Success?
    ensures var r := Parse(hosts, value, mode).value;
            && r.origin == value == PrintRule(r) && ValidRule(hosts, r) && |value| <= 512
            && (mode.Some? ==> r.mode == mode.value)
  {
    var s := Read(value).value;
    ReadPrintsBack(value);
    ReadIsCut(value);
    CutIsDelimited(hosts, s.hostname, s.subdomains);
  }

  /** A valid rule of at most 512 characters is read back from its print. */
  lemma PrintedParsesBack(hosts: Hosts, r: Rule, mode: Option<Mode>)
    requires ValidRule(hosts, r) && |PrintRule(r)| <= 512 && (mode.Some? ==> mode.value == r.mode)
    ensures Parse(hosts, PrintRule(r), mode) == Success(r.(origin := PrintRule(r)))
  {
    PrintReadsBack(Spelling(r.mode, r.subdomains, r.hostname, r.port));
  }

  /** Accepted are exactly the prints of valid rules of at most 512 characters, in the mode that is asked for. */
  lemma ParseExact(hosts: Hosts, value: string, mode: Option<Mode>)
    requires hosts.Reasonable()
    ensures Parse(hosts, value, mode).Success? <==>
              && |value| <= 512
              && exists r :: ValidRule(hosts, r) && PrintRule(r) == value && (mode.Some? ==> r.mode == mode.value)
  {
    if Parse(hosts, value, mode).Success? {
      ParsedPrintsBack(hosts, value, mode);
    }
    hide ValidRule, PrintRule, Parse;
    forall r | ValidRule(hosts, r) && PrintRule(r) == value && (mode.Some? ==> r.mode == mode.value) && |value| <= 512
      ensures Parse(hosts, value, mode).Success?
    {
      PrintedParsesBack(hosts, r, mode);
    }
  }

  lemma NotWildcardPort(hostname: string, tail: string, scheme: string, star: string)
    requires Delimited(hostname)
    requires tail == "" ||
             exists port: Port :: ValidPort(port) && port.Port? && port.number != 443 && tail == PortText(port)
    ensures !HasWildcardPort(scheme + (star + (hostname + tail)))
  {
    var s := scheme + (star + (hostname + tail));
    if tail == "" {
      assert s[|s| - 1] == hostname[|hostname| - 1];
      if hostname[0] != '[' && |hostname| > 1 {
        assert s[|s| - 2] == hostname[|hostname| - 2] && hostname[|hostname| - 2] in hostname;
      } else if hostname[0] == '[' {
        assert hostname[|hostname| - 1] == ']';
      }
    } else {
      var port: Port :| ValidPort(port) && port.Port? && port.number != 443 && tail == PortText(port);
      var n := port.number;
      assert s[|s| - 1] == Numeral(n)[|Numeral(n)| - 1] && Numeral(n)[|Numeral(n)| - 1] in Numeral(n);
    }
  }

  /** Rule text is canonical: two accepted origins denote the same rule exactly when they are the same string. */
  lemma CanonicalText(hosts: Hosts, a: string, b: string)
    requires hosts.Reasonable() && Parse(hosts, a, None).Success? && Parse(hosts, b, None).Success?
    ensures var x, y := Parse(hosts, a, None).value, Parse(hosts, b, None).value;
            x.mode == y.mode && x.hostname == y.hostname && x.subdomains == y.subdomains && x.port == y.port <==> a == b
  {
    ParsedPrintsBack(hosts, a, None);
    ParsedPrintsBack(hosts, b, None);
  }

  // ----- drafts -----

  datatype Scope = Exact | Subdomains

  datatype PortPolicy = All | Specific

  datatype Draft = Draft(host: string, mode: Mode, scope: Scope, ports: PortPolicy, port: string)

  datatype DraftError = HostField | PortField

  function Trim(s: string): string {
    if s != "" && Whitespace(s[0] as int) then Trim(s[1..])
    else if s != "" && Whitespace(Last(s) as int) then Trim(s[..|s| - 1])
    else s
  }

  function Lower(s: string): (r: string)
    ensures |r| == |s|
  {
    seq(|s|, i requires 0 <= i < |s| => if 'A' <= s[i] <= 'Z' then ((s[i] as int) + 32) as char else s[i])
  }

  function DraftHost(d: Draft): string {
    Lower(Trim(d.host))
  }

  predicate HostText(host: string) {
    host != "" && forall c | c in host :: IsAlphanumeric(c) || c == '.' || c == '-'
  }

  predicate PortInput(text: string) {
    text != "" && AllDigits(text) && 1 <= Value(text) <= 65535
  }

  function DraftPort(d: Draft): Port
    requires d.ports.Specific? ==> PortInput(Trim(d.port))
  {
    if d.ports.All? then AllPorts else Port(Value(Trim(d.port)))
  }

  function DraftOrigin(hosts: Hosts, d: Draft): Result<string, DraftError> {
    if !HostText(DraftHost(d)) then Failure(HostField)
    else if d.ports.Specific? && !PortInput(Trim(d.port)) then Failure(PortField)
    else
      var r := Parse(hosts, Print(d.mode, DraftHost(d), d.scope.Subdomains?, DraftPort(d)), Some(d.mode));
      if r.Success? then Success(r.value.origin) else Failure(HostField)
  }

  /** What a draft asks for. */
  function DraftRule(d: Draft): Rule
    requires d.ports.Specific? ==> PortInput(Trim(d.port))
  {
    var origin := Print(d.mode, DraftHost(d), d.scope.Subdomains?, DraftPort(d));
    Rule(origin, d.mode, DraftHost(d), d.scope.Subdomains?, DraftPort(d))
  }

  lemma HostTextDelimited(host: string)
    requires HostText(host)
    ensures Delimited(host)
  {
    assert host[0] in host;
    assert forall c | c in host :: c != ':';
  }

  /**
   * A draft is accepted exactly when its fields are well formed and the host is a valid one for its
   * scope, and the accepted origin parses to the mode, normalised host, scope and port of the draft.
   */
  lemma DraftAccepted(hosts: Hosts, d: Draft)
    ensures DraftOrigin(hosts, d).Success? <==>
              && HostText(DraftHost(d)) && (d.ports.Specific? ==> PortInput(Trim(d.port)))
              && ValidHost(hosts, DraftHost(d), d.scope.Subdomains?)
              && |DraftRule(d).origin| <= 512
    ensures DraftOrigin(hosts, d).Success? ==>
              Parse(hosts, DraftOrigin(hosts, d).value, None) == Success(DraftRule(d))
  {
    if HostText(DraftHost(d)) && (d.ports.Specific? ==> PortInput(Trim(d.port))) {
      var r := DraftRule(d);
      HostTextDelimited(r.hostname);
      PrintReadsBack(Spelling(r.mode, r.subdomains, r.hostname, r.port));
    }
  }
}

/** Overlap of connection rules as set intersection, and the policy built on it. */
module ConnectionRules {
  import opened Wrappers
  import opened ConnectionText
  import opened Segments

  /** A connection a browser may attempt. */
  datatype Target = Target(mode: Mode, host: string, port: nat)

  function WithoutDot(host: string): string {
    if host != "" && host[|host| - 1] == '.' then host[..|host| - 1] else host
  }

  function Normalized(host: string): string {
    WithoutDot(Lower(host))
  }

  predicate IncludesHostname(r: Rule, host: string) {
    if r.subdomains then EndsWith(Normalized(host), "." + r.hostname) else Normalized(host) == r.hostname
  }

  predicate Overlaps(a: Rule, b: Rule) {
    if a.mode != b.mode || (!a.port.AllPorts? && !b.port.AllPorts? && a.port != b.port) then false
    else if a.subdomains && b.subdomains then
      a.hostname == b.hostname || IncludesHostname(a, b.hostname) || IncludesHostname(b, a.hostname)
    else if a.subdomains then IncludesHostname(a, b.hostname)
    else if b.subdomains then IncludesHostname(b, a.hostname)
    else a.hostname == b.hostname
  }

  /** The rule lets this connection through. */
  predicate Matches(r: Rule, t: Target) {
    && r.mode == t.mode && 1 <= t.port <= 65535
    && (r.port.AllPorts? || r.port.number == t.port)
    && IncludesHostname(r, t.host)
  }

  /** What parsing guarantees: a host in normal form and a port in range. */
  ghost predicate Canonical(r: Rule) {
    r.hostname != "" && Normalized(r.hostname) == r.hostname && ValidPort(r.port)
  }

  lemma LowerFixed(s: string)
    requires forall c | c in s :: !('A' <= c <= 'Z')
    ensures Lower(s) == s
  {
    assert forall i | 0 <= i < |s| :: s[i] in s;
  }

  lemma HostCharacters(hosts: Hosts, hostname: string, subdomains: bool)
    requires hosts.Reasonable() && ValidHost(hosts, hostname, subdomains)
    ensures var host := WithoutBrackets(hostname);
            host != "" && host[|host| - 1] != '.' && forall c | c in host :: !('A' <= c <= 'Z')
  {
    HostShape(hosts, hostname, subdomains);
    hide ValidHost, Hosts.Reasonable;
  }

  lemma BracketsAround(hostname: string)
    requires WithoutBrackets(hostname) != ""
    ensures forall c | c in hostname :: c in WithoutBrackets(hostname) || c == '[' || c == ']'
    ensures hostname != ""
    ensures hostname[|hostname| - 1] == ']'
            || hostname[|hostname| - 1] == WithoutBrackets(hostname)[|WithoutBrackets(hostname)| - 1]
  {
    var host := WithoutBrackets(hostname);
    var open := if hostname != "" && hostname[0] == '[' then 1 else 0;
    assert forall i | 0 <= i < |host| :: host[i] == hostname[i + open];
    forall i | 0 <= i < |hostname|
      ensures hostname[i] in host || hostname[i] == '[' || hostname[i] == ']'
    {
      if open <= i < open + |host| {
        assert hostname[i] == host[i - open];
      }
    }
  }

  lemma ValidHostIsNormal(hosts: Hosts, hostname: string, subdomains: bool)
    requires hosts.Reasonable() && ValidHost(hosts, hostname, subdomains)
    ensures hostname != "" && Normalized(hostname) == hostname
  {
    HostCharacters(hosts, hostname, subdomains);
    hide ValidHost, WithoutBrackets, Hosts.Reasonable;
    BracketsAround(hostname);
    LowerFixed(hostname);
  }

  lemma ParsedIsCanonical(hosts: Hosts, value: string)
    requires hosts.Reasonable() && Parse(hosts, value, None).Success?
    ensures Canonical(Parse(hosts, value, None).value)
  {
    ParsedPrintsBack(hosts, value, None);
    var s := Read(value).value;
    ValidHostIsNormal(hosts, s.hostname, s.subdomains);
  }

  /** Two dotted suffixes of one host nest. */
  lemma SuffixesNest(host: string, a: string, b: string)
    requires EndsWith(host, "." + a) && EndsWith(host, "." + b) && |a| <= |b|
    ensures a == b || EndsWith(b, "." + a)
  {
    var x, y := "." + a, "." + b;
    assert host[|host| - |x|..] == x && host[|host| - |y|..] == y;
    assert y[|y| - |x|..] == x;
    if |a| < |b| {
      assert b[|b| - |x|..] == y[1..][|b| - |x|..] == y[|y| - |x|..];
    } else {
      assert y == x && a == x[1..] && b == y[1..];
    }
  }

  lemma SuffixTrans(a: string, b: string, front: string)
    requires a == b || EndsWith(b, "." + a)
    ensures EndsWith(front + "." + b, "." + a)
  {
    var s, x := front + "." + b, "." + a;
    if a == b {
      assert s[|s| - |x|..] == x;
    } else {
      assert s[|s| - |x|..] == b[|b| - |x|..];
    }
  }

  /** A port both rules allow. */
  function CommonPort(a: Rule, b: Rule): nat {
    if a.port.Port? then a.port.number else if b.port.Port? then b.port.number else 443
  }

  /** A host both rules allow: the more specific one, below it if both are wildcards. */
  function CommonHost(a: Rule, b: Rule): string {
    if !a.subdomains then a.hostname
    else if !b.subdomains then b.hostname
    else "x" + "." + if |a.hostname| <= |b.hostname| then b.hostname else a.hostname
  }

  lemma NormalBelow(h: string)
    requires Normalized(h) == h && h != ""
    ensures Normalized("x" + "." + h) == "x" + "." + h
  {
    LowerOfNormal(h);
    assert Lower("x" + "." + h) == "x" + "." + Lower(h);
  }

  lemma LowerOfNormal(h: string)
    requires Normalized(h) == h && h != ""
    ensures Lower(h) == h && h[|h| - 1] != '.'
  {
  }

  lemma OverlapHasWitness(a: Rule, b: Rule)
    requires Canonical(a) && Canonical(b) && Overlaps(a, b)
    ensures var t := Target(a.mode, CommonHost(a, b), CommonPort(a, b)); Matches(a, t) && Matches(b, t)
  {
    if a.subdomains && b.subdomains {
      var longer := if |a.hostname| <= |b.hostname| then b.hostname else a.hostname;
      NormalBelow(longer);
      SuffixTrans(a.hostname, longer, "x");
      SuffixTrans(b.hostname, longer, "x");
    }
  }

  lemma WitnessMeansOverlap(a: Rule, b: Rule, t: Target)
    requires Canonical(a) && Canonical(b) && Matches(a, t) && Matches(b, t)
    ensures Overlaps(a, b)
  {
    if a.subdomains && b.subdomains {
      if |a.hostname| <= |b.hostname| {
        SuffixesNest(Normalized(t.host), a.hostname, b.hostname);
      } else {
        SuffixesNest(Normalized(t.host), b.hostname, a.hostname);
      }
    }
  }

  /** Overlap is exactly set intersection; in particular it is symmetric and reflexive. */
  lemma OverlapsIsIntersection(a: Rule, b: Rule)
    requires Canonical(a) && Canonical(b)
    ensures Overlaps(a, b) <==> exists t :: Matches(a, t) && Matches(b, t)
    ensures Overlaps(a, b) == Overlaps(b, a)
  {
    if Overlaps(a, b) {
      OverlapHasWitness(a, b);
      WitnessMeansOverlap(b, a, Target(a.mode, CommonHost(a, b), CommonPort(a, b)));
    }
    if Overlaps(b, a) {
      OverlapHasWitness(b, a);
      WitnessMeansOverlap(a, b, Target(b.mode, CommonHost(b, a), CommonPort(b, a)));
    }
    forall t | Matches(a, t) && Matches(b, t)
      ensures Overlaps(a, b)
    {
      WitnessMeansOverlap(a, b, t);
    }
  }

  /** A host that DNS can carry: at most 253 characters, and no empty first label. */
  ghost predicate CarriedByDns(host: string) {
    host == Normalized(host) && host != "" && host[0] != '.' && |host| <= 253
  }

  /**
   * Two overlapping wildcards share a host that DNS can carry exactly when the longer hostname leaves
   * room for one more label; the check is stricter than that on hostnames of 252 and 253 characters.
   */
  lemma WildcardRoom(a: Rule, b: Rule)
    requires Canonical(a) && Canonical(b) && a.subdomains && b.subdomains && Overlaps(a, b)
    ensures (exists t :: Matches(a, t) && Matches(b, t) && CarriedByDns(t.host)) <==>
            |a.hostname| <= 251 && |b.hostname| <= 251
  {
    OverlapHasWitness(a, b);
    var t := Target(a.mode, CommonHost(a, b), CommonPort(a, b));
    var longer := if |a.hostname| <= |b.hostname| then b.hostname else a.hostname;
    NormalBelow(longer);
    if |longer| <= 251 {
      assert CarriedByDns(t.host);
    }
    forall u | Matches(a, u) && Matches(b, u) && CarriedByDns(u.host)
      ensures |longer| <= 251
    {
      var suffix := "." + longer;
      assert EndsWith(u.host, suffix) && suffix[0] == '.';
      assert u.host != suffix;
    }
  }

  // ----- the policy -----

  datatype PolicyError = TooManyOrigins | InvalidOrigin | ProtectedHost | RulesOverlap

  function ParseAll(hosts: Hosts, origins: seq<string>): Result<seq<Rule>, PolicyError> {
    if origins == [] then Success([])
    else
      var first := Parse(hosts, origins[0], None);
      if first.Failure? then Failure(InvalidOrigin)
      else
        var rest := ParseAll(hosts, origins[1..]);
        if rest.Failure? then rest else Success([first.value] + rest.value)
  }

  /** One pass over the rules, each against the protected hosts and against the rules before it. */
  function CheckRules(rules: seq<Rule>, index: nat, isProtected: Rule -> bool, overlaps: (Rule, Rule) -> bool)
    : Option<PolicyError>
    requires index <= |rules|
    decreases |rules| - index
  {
    if index == |rules| then None
    else if isProtected(rules[index]) then Some(ProtectedHost)
    else if exists previous :: previous in rules[..index] && overlaps(previous, rules[index]) then Some(RulesOverlap)
    else CheckRules(rules, index + 1, isProtected, overlaps)
  }

  predicate CoversProtected(r: Rule, protectedHosts: seq<string>) {
    exists host :: host in protectedHosts && IncludesHostname(r, host)
  }

  function CheckAll(rules: seq<Rule>, protectedHosts: seq<string>): Option<PolicyError> {
    CheckRules(rules, 0, r => CoversProtected(r, protectedHosts), Overlaps)
  }

  function Policy(hosts: Hosts, origins: seq<string>, protectedHosts: seq<string>): Result<seq<Rule>, PolicyError> {
    if |origins| > 16 then Failure(TooManyOrigins)
    else
      var rules := ParseAll(hosts, origins);
      if rules.Failure? then rules
      else
        var e := CheckAll(rules.value, protectedHosts);
        if e.Some? then Failure(e.value) else rules
  }

  lemma {:induction false} ParseAllParses(hosts: Hosts, origins: seq<string>)
    ensures ParseAll(hosts, origins).Success? <==> forall o | o in origins :: Parse(hosts, o, None).Success?
    ensures ParseAll(hosts, origins).Success? ==>
              && |ParseAll(hosts, origins).value| == |origins|
              && forall i | 0 <= i < |origins| ::
                   Parse(hosts, origins[i], None) == Success(ParseAll(hosts, origins).value[i])
  {
    if origins == [] {
    } else {
      ParseAllParses(hosts, origins[1..]);
      assert forall o :: o in origins <==> o == origins[0] || o in origins[1..];
    }
  }

  lemma {:induction false} CheckRulesExact(rules: seq<Rule>, index: nat, isProtected: Rule -> bool,
                                           overlaps: (Rule, Rule) -> bool)
    requires index <= |rules|
    ensures CheckRules(rules, index, isProtected, overlaps).None? <==>
              && (forall j | index <= j < |rules| :: !isProtected(rules[j]))
              && (forall i, j | 0 <= i < j < |rules| && index <= j :: !overlaps(rules[i], rules[j]))
    decreases |rules| - index
  {
    if index < |rules| {
      CheckRulesExact(rules, index + 1, isProtected, overlaps);
      assert forall i | 0 <= i < index :: rules[i] in rules[..index];
      forall previous | previous in rules[..index]
        ensures exists i :: 0 <= i < index && rules[i] == previous
      {
        var i :| 0 <= i < |rules[..index]| && rules[..index][i] == previous;
      }
    }
  }

  ghost predicate NoSharedTarget(a: Rule, b: Rule) {
    forall t :: !(Matches(a, t) && Matches(b, t))
  }

  /** No target is matched by two rules, and no protected host by any. */
  ghost predicate Unambiguous(rules: seq<Rule>, protectedHosts: seq<string>) {
    && (forall i, j | 0 <= i < j < |rules| :: NoSharedTarget(rules[i], rules[j]))
    && (forall i | 0 <= i < |rules| :: !CoversProtected(rules[i], protectedHosts))
  }

  lemma CheckAllExact(rules: seq<Rule>, protectedHosts: seq<string>)
    requires forall i | 0 <= i < |rules| :: Canonical(rules[i])
    ensures CheckAll(rules, protectedHosts).None? <==> Unambiguous(rules, protectedHosts)
  {
    CheckRulesExact(rules, 0, r => CoversProtected(r, protectedHosts), Overlaps);
    forall i, j | 0 <= i < j < |rules|
      ensures Overlaps(rules[i], rules[j]) <==> !NoSharedTarget(rules[i], rules[j])
    {
      OverlapsIsIntersection(rules[i], rules[j]);
    }
  }

  lemma AllCanonical(hosts: Hosts, origins: seq<string>)
    requires hosts.Reasonable() && ParseAll(hosts, origins).Success?
    ensures |ParseAll(hosts, origins).value| == |origins|
    ensures forall r | r in ParseAll(hosts, origins).value :: Canonical(r)
    ensures forall i | 0 <= i < |origins| :: RuleOf(hosts, origins[i]) == ParseAll(hosts, origins).value[i]
  {
    ParseAllParses(hosts, origins);
    var rules := ParseAll(hosts, origins).value;
    forall i | 0 <= i < |origins|
      ensures Canonical(rules[i]) && RuleOf(hosts, origins[i]) == rules[i]
    {
      ParsedIsCanonical(hosts, origins[i]);
    }
  }

  /**
   * A policy is accepted exactly when it has at most sixteen valid origins, no target is matched by
   * two of its rules, and no protected host is matched by any.
   */
  lemma PolicyExact(hosts: Hosts, origins: seq<string>, protectedHosts: seq<string>)
    requires hosts.Reasonable()
    ensures Policy(hosts, origins, protectedHosts).Success? <==>
              && |origins| <= 16 && ParseAll(hosts, origins).Success?
              && Unambiguous(ParseAll(hosts, origins).value, protectedHosts)
    ensures Policy(hosts, origins, protectedHosts).Success? ==>
              Policy(hosts, origins, protectedHosts) == ParseAll(hosts, origins)
  {
    if ParseAll(hosts, origins).Success? {
      AllCanonical(hosts, origins);
      CheckAllExact(ParseAll(hosts, origins).value, protectedHosts);
    }
  }

  // ----- order of the origins -----

  /** The rule of an origin; any rule at all for an invalid one. */
  function RuleOf(hosts: Hosts, origin: string): Rule {
    var r := Parse(hosts, origin, None);
    if r.Success? then r.value else Rule(origin, HTTPS, "", false, AllPorts)
  }

  lemma {:induction false} AtTwoPlaces(s: seq<string>, i: nat, j: nat)
    requires i < j < |s| && s[i] == s[j]
    ensures multiset(s)[s[i]] >= 2
  {
    assert s == s[..j] + s[j..];
    assert s[i] == s[..j][i] && s[j] == s[j..][0];
    assert s[i] in multiset(s[..j]) && s[j] in multiset(s[j..]);
  }

  lemma {:induction false} RepeatedSomewhere(s: seq<string>, x: string)
    requires x in s && multiset(s)[x] != 1
    ensures exists i, j :: 0 <= i < j < |s| && s[i] == s[j] == x
  {
    assert s == [s[0]] + s[1..];
    if s[0] == x {
      assert multiset(s[1..])[x] >= 1 && x in s[1..];
      var k :| 0 <= k < |s[1..]| && s[1..][k] == x;
      assert s[0] == s[k + 1] == x;
    } else {
      RepeatedSomewhere(s[1..], x);
      var i, j :| 0 <= i < j < |s[1..]| && s[1..][i] == s[1..][j] == x;
      assert s[i + 1] == s[j + 1] == x;
    }
  }

  ghost predicate NoClash(s: seq<string>, clash: (string, string) -> bool) {
    forall i, j | 0 <= i < j < |s| :: !clash(s[i], s[j])
  }

  /** For a reflexive and symmetric clash, having no clash is a property of the bag. */
  lemma NoClashOfBag(s: seq<string>, clash: (string, string) -> bool)
    requires forall x | x in s :: clash(x, x)
    requires forall x, y | x in s && y in s :: clash(x, y) == clash(y, x)
    ensures NoClash(s, clash) <==>
              && (forall x | x in multiset(s) :: multiset(s)[x] == 1)
              && (forall x, y | x in multiset(s) && y in multiset(s) && x != y :: !clash(x, y))
  {
    assert forall x :: x in multiset(s) <==> x in s;
    if NoClash(s, clash) {
      forall x | x in s
        ensures multiset(s)[x] == 1
      {
        if multiset(s)[x] != 1 {
          RepeatedSomewhere(s, x);
        }
      }
      forall x, y | x in s && y in s && x != y
        ensures !clash(x, y)
      {
        var i :| 0 <= i < |s| && s[i] == x;
        var j :| 0 <= j < |s| && s[j] == y;
        assert if i < j then !clash(s[i], s[j]) else !clash(s[j], s[i]);
      }
    }
    forall i, j | 0 <= i < j < |s| && s[i] == s[j]
      ensures multiset(s)[s[i]] >= 2
    {
      AtTwoPlaces(s, i, j);
    }
  }

  lemma RulesByOrigins(origins: seq<string>, rules: seq<Rule>, ruleOf: string -> Rule, isProtected: Rule -> bool,
                       overlaps: (Rule, Rule) -> bool, covered: string -> bool, clash: (string, string) -> bool)
    requires |rules| == |origins| && forall i | 0 <= i < |origins| :: rules[i] == ruleOf(origins[i])
    requires forall o :: covered(o) == isProtected(ruleOf(o))
    requires forall o, p :: clash(o, p) == overlaps(ruleOf(o), ruleOf(p))
    ensures CheckRules(rules, 0, isProtected, overlaps).None? <==>
              (forall o | o in origins :: !covered(o)) && NoClash(origins, clash)
  {
    CheckRulesExact(rules, 0, isProtected, overlaps);
    assert forall i | 0 <= i < |origins| :: origins[i] in origins && covered(origins[i]) == isProtected(rules[i]);
    forall i, j | 0 <= i < j < |origins|
      ensures clash(origins[i], origins[j]) == overlaps(rules[i], rules[j])
    {
    }
  }

  /** The policy as a property of its origins, one by one and in pairs. */
  ghost predicate Acceptable(origins: seq<string>, valid: string -> bool, covered: string -> bool,
                             clash: (string, string) -> bool) {
    && |origins| <= 16
    && (forall o | o in origins :: valid(o))
    && (forall o | o in origins :: !covered(o))
    && NoClash(origins, clash)
  }

  lemma PolicyByOrigins(hosts: Hosts, origins: seq<string>, protectedHosts: seq<string>)
    requires hosts.Reasonable()
    ensures Policy(hosts, origins, protectedHosts).Success? <==>
              Acceptable(origins, o => Parse(hosts, o, None).Success?,
                         o => CoversProtected(RuleOf(hosts, o), protectedHosts),
                         (o, p) => Overlaps(RuleOf(hosts, o), RuleOf(hosts, p)))
  {
    ParseAllParses(hosts, origins);
    hide Overlaps, CoversProtected, Parse, ParseAll, NoClash, CheckRules;
    if ParseAll(hosts, origins).Success? {
      AllCanonical(hosts, origins);
      RulesByOrigins(origins, ParseAll(hosts, origins).value, o => RuleOf(hosts, o),
                     r => CoversProtected(r, protectedHosts), Overlaps,
                     o => CoversProtected(RuleOf(hosts, o), protectedHosts),
                     (o, p) => Overlaps(RuleOf(hosts, o), RuleOf(hosts, p)));
    }
  }

  lemma AcceptableOfBag(a: seq<string>, b: seq<string>, valid: string -> bool, covered: string -> bool,
                        clash: (string, string) -> bool)
    requires multiset(a) == multiset(b)
    requires forall x | valid(x) :: clash(x, x)
    requires forall x, y | valid(x) && valid(y) :: clash(x, y) == clash(y, x)
    ensures Acceptable(a, valid, covered, clash) == Acceptable(b, valid, covered, clash)
  {
    assert |a| == |multiset(a)| == |multiset(b)| == |b|;
    assert forall o :: o in a <==> o in multiset(a);
    assert forall o :: o in b <==> o in multiset(b);
    if forall o | o in a :: valid(o) {
      NoClashOfBag(a, clash);
      NoClashOfBag(b, clash);
    }
  }

  lemma OverlapOfOrigins(hosts: Hosts, o: string, p: string)
    requires hosts.Reasonable() && Parse(hosts, o, None).Success? && Parse(hosts, p, None).Success?
    ensures Overlaps(RuleOf(hosts, o), RuleOf(hosts, o))
    ensures Overlaps(RuleOf(hosts, o), RuleOf(hosts, p)) == Overlaps(RuleOf(hosts, p), RuleOf(hosts, o))
  {
    ParsedIsCanonical(hosts, o);
    ParsedIsCanonical(hosts, p);
    OverlapsIsIntersection(RuleOf(hosts, o), RuleOf(hosts, p));
  }

  /** Whether a policy is accepted does not depend on the order of its origins. */
  lemma OrderIrrelevant(hosts: Hosts, a: seq<string>, b: seq<string>, protectedHosts: seq<string>)
    requires hosts.Reasonable() && multiset(a) == multiset(b)
    ensures Policy(hosts, a, protectedHosts).Success? == Policy(hosts, b, protectedHosts).Success?
  {
    PolicyByOrigins(hosts, a, protectedHosts);
    PolicyByOrigins(hosts, b, protectedHosts);
    forall o, p | Parse(hosts, o, None).Success? && Parse(hosts, p, None).Success?
      ensures Overlaps(RuleOf(hosts, o), RuleOf(hosts, o))
      ensures Overlaps(RuleOf(hosts, o), RuleOf(hosts, p)) == Overlaps(RuleOf(hosts, p), RuleOf(hosts, o))
    {
      OverlapOfOrigins(hosts, o, p);
    }
    AcceptableOfBag(a, b, o => Parse(hosts, o, None).Success?,
                    o => CoversProtected(RuleOf(hosts, o), protectedHosts),
                    (o, p) => Overlaps(RuleOf(hosts, o), RuleOf(hosts, p)));
  }
}

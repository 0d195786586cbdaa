/** Which hosts a connection rule may name, said of their characters and bytes, and how a rule compares hosts. */
module ConnectionHosts {
  import opened Wrappers
  import opened Characters
  import opened Segments
  import opened ConnectionText
  import ConnectionRules
  import Decimals
  import IpTarget

  // ----- public addresses -----

  lemma SmallPowers()
    ensures IpTarget.Pow2(0) == 1 && IpTarget.Pow2(4) == 16 && IpTarget.Pow2(5) == 32
  {
  }

  ghost predicate PublicAddress(hosts: Hosts, a: IpTarget.Address) {
    && hosts.unicast(a)
    && (a.family.V6? ==>
          |a.bytes| == 16 && 0x20 <= a.bytes[0] < 0x40
          && !(a.bytes[0] == 0x3F && a.bytes[1] == 0xFF && a.bytes[2] < 0x10))
  }

  /** A unicast address counts as public, except an IPv6 one outside 2000::/3 or within 3fff::/20. */
  lemma PublicAddressExact(hosts: Hosts, a: IpTarget.Address)
    requires IpTarget.ValidAddress(a)
    ensures hosts.IsPublic(a) <==> PublicAddress(hosts, a)
  {
    if a.family.V6? {
      SmallPowers();
      hide IpTarget.Pow2;
      FirstBits(a.bytes);
      FirstTwentyBits(a.bytes);
      hide IpTarget.PrefixMatch;
    }
  }

  lemma FirstBits(bytes: seq<nat>)
    requires |bytes| == 16
    ensures IpTarget.PrefixMatch(bytes, GLOBAL_UNICAST, 3) <==> 0x20 <= bytes[0] < 0x40
  {
    SmallPowers();
    hide IpTarget.Pow2;
    assert IpTarget.PrefixMatch(bytes[1..], GLOBAL_UNICAST[1..], 0);
  }

  lemma WholeByteMatch(a: seq<nat>, b: seq<nat>, prefix: nat)
    requires |a| == |b| && 8 <= prefix <= 8 * |a|
    ensures IpTarget.PrefixMatch(a, b, prefix) <==> a[0] == b[0] && IpTarget.PrefixMatch(a[1..], b[1..], prefix - 8)
  {
    SmallPowers();
    hide IpTarget.Pow2;
  }

  lemma HalfByteMatch(a: seq<nat>, b: seq<nat>)
    requires |a| == |b| && a != []
    ensures IpTarget.PrefixMatch(a, b, 4) <==> a[0] / 16 == b[0] / 16
  {
    SmallPowers();
    hide IpTarget.Pow2;
    assert IpTarget.PrefixMatch(a[1..], b[1..], 0);
  }

  lemma FirstTwentyBits(bytes: seq<nat>)
    requires |bytes| == 16
    ensures IpTarget.PrefixMatch(bytes, DOCUMENTATION, 20) <==> bytes[0] == 0x3F && bytes[1] == 0xFF && bytes[2] < 0x10
  {
    hide IpTarget.PrefixMatch;
    var b1, d1 := bytes[1..], DOCUMENTATION[1..];
    WholeByteMatch(bytes, DOCUMENTATION, 20);
    WholeByteMatch(b1, d1, 12);
    HalfByteMatch(b1[1..], d1[1..]);
  }

  // ----- public names -----

  /** Letters, digits, hyphens and dots, with a letter or digit at both ends and on both sides of every dot. */
  ghost predicate Spelled(s: string) {
    && s != "" && IsAlphanumeric(s[0]) && IsAlphanumeric(s[|s| - 1])
    && (forall i | 0 <= i < |s| :: IsAlphanumeric(s[i]) || s[i] == '-' || s[i] == '.')
    && forall i | 0 < i < |s| - 1 && s[i] == '.' :: IsAlphanumeric(s[i - 1]) && IsAlphanumeric(s[i + 1])
  }

  /** Of any 64 characters in a row, one is a dot. */
  ghost predicate ShortRuns(s: string) {
    forall i | 0 <= i <= |s| - 64 :: DotWithin(s, i)
  }

  ghost predicate DotWithin(s: string, i: nat) {
    exists j :: i <= j < i + 64 && j < |s| && s[j] == '.'
  }

  ghost predicate GoodLabels(s: string) {
    forall l | l in Split(s, '.') :: |l| <= 63 && IsLabel(l)
  }

  lemma NoDotWithin(s: string, n: nat)
    requires 64 <= n <= |s| && forall k | 0 <= k < n :: s[k] != '.'
    ensures !DotWithin(s, 0)
  {
  }

  lemma OneLabel(s: string)
    requires '.' !in s
    ensures Spelled(s) <==> IsLabel(s)
    ensures ShortRuns(s) <==> |s| <= 63
  {
    if |s| >= 64 {
      NoDotWithin(s, |s|);
    }
    assert forall c | c in s :: exists i :: 0 <= i < |s| && s[i] == c;
  }

  lemma SpelledParts(front: string, rest: string)
    requires '.' !in front
    ensures Spelled(front + "." + rest) <==> IsLabel(front) && Spelled(rest)
  {
    hide Spelled, IsLabel;
    if IsLabel(front) && Spelled(rest) {
      SpelledPartsOn(front, rest);
    }
    if Spelled(front + "." + rest) {
      SpelledPartsBack(front, rest);
    }
  }

  lemma SpelledPartsOn(front: string, rest: string)
    requires '.' !in front && IsLabel(front) && Spelled(rest)
    ensures Spelled(front + "." + rest)
  {
    hide IsAlphanumeric;
    var s, n := front + "." + rest, |front|;
    assert s[n] == '.' && s[n - 1] == front[n - 1] && s[n + 1] == rest[0];
    assert s[0] == front[0] && s[|s| - 1] == rest[|rest| - 1];
    forall i | 0 <= i < |s|
      ensures IsAlphanumeric(s[i]) || s[i] == '-' || s[i] == '.'
      ensures 0 < i < |s| - 1 && s[i] == '.' ==> IsAlphanumeric(s[i - 1]) && IsAlphanumeric(s[i + 1])
    {
      if i < n {
        assert s[i] == front[i] && front[i] in front;
      } else if i > n {
        DotInRest(s, rest, n + 1, i - n - 1);
      }
    }
  }

  lemma DotInRest(s: string, rest: string, n: nat, k: nat)
    requires n <= |s| && s[n..] == rest && Spelled(rest) && k < |rest|
    ensures IsAlphanumeric(s[n + k]) || s[n + k] == '-' || s[n + k] == '.'
    ensures n + k < |s| - 1 && s[n + k] == '.' ==> k > 0 && IsAlphanumeric(s[n + k - 1]) && IsAlphanumeric(s[n + k + 1])
  {
    assert s[n + k] == rest[k];
    if k == 0 {
      assert IsAlphanumeric(rest[0]);
    } else if k < |rest| - 1 {
      assert s[n + k - 1] == rest[k - 1] && s[n + k + 1] == rest[k + 1];
    }
  }

  lemma SpelledPartsBack(front: string, rest: string)
    requires '.' !in front && Spelled(front + "." + rest)
    ensures IsLabel(front) && Spelled(rest)
  {
    SpelledFront(front, rest);
    SpelledRest(front + "." + rest, |front|, rest);
    hide Spelled, IsLabel;
  }

  lemma SpelledFront(front: string, rest: string)
    requires '.' !in front && Spelled(front + "." + rest)
    ensures IsLabel(front)
  {
    assert !IsAlphanumeric('.');
    hide IsAlphanumeric;
    var s, n := front + "." + rest, |front|;
    assert s[n] == '.' && IsAlphanumeric(s[0]) && IsAlphanumeric(s[|s| - 1]);
    assert front[0] == s[0] && front[n - 1] == s[n - 1];
    forall c | c in front ensures IsAlphanumeric(c) || c == '-' {
      var i :| 0 <= i < n && front[i] == c;
      assert s[i] == c;
    }
  }

  lemma SpelledRest(s: string, n: nat, rest: string)
    requires Spelled(s) && n < |s| && s[n] == '.' && rest == s[n + 1..]
    ensures Spelled(rest)
  {
    assert !IsAlphanumeric('.');
    hide IsAlphanumeric;
    assert rest != "" && rest[0] == s[n + 1] && rest[|rest| - 1] == s[|s| - 1];
    assert n > 0 ==> IsAlphanumeric(s[n + 1]);
    assert forall i | 0 <= i < |rest| :: rest[i] == s[n + 1 + i];
  }

  lemma RunsParts(front: string, rest: string)
    requires '.' !in front
    ensures ShortRuns(front + "." + rest) <==> |front| <= 63 && ShortRuns(rest)
  {
    var s, n := front + "." + rest, |front|;
    assert s[n] == '.';
    assert forall i | 0 <= i < n :: s[i] == front[i] && front[i] in front;
    if n >= 64 {
      NoDotWithin(s, n);
    } else {
      forall i | 0 <= i <= |rest| - 64 ensures DotWithin(rest, i) <==> DotWithin(s, n + 1 + i) {
        DotMoves(front, rest, i);
      }
      assert forall i | 0 <= i <= n && i <= |s| - 64 :: DotWithin(s, i);
      if ShortRuns(rest) {
        forall i | n < i <= |s| - 64 ensures DotWithin(s, i) {
          DotMoves(front, rest, i - n - 1);
        }
      }
    }
  }

  lemma DotMoves(front: string, rest: string, i: nat)
    ensures DotWithin(rest, i) <==> DotWithin(front + "." + rest, |front| + 1 + i)
  {
    var s, n := front + "." + rest, |front|;
    assert forall j | 0 <= j < |rest| :: rest[j] == s[n + 1 + j];
    if DotWithin(s, n + 1 + i) {
      var j :| n + 1 + i <= j < n + 1 + i + 64 && j < |s| && s[j] == '.';
      assert rest[j - n - 1] == '.';
    }
  }

  lemma GoodParts(front: string, rest: string)
    requires '.' !in front
    ensures GoodLabels(front + "." + rest) <==> |front| <= 63 && IsLabel(front) && GoodLabels(rest)
  {
    hide IsLabel, Split;
    SplitFront(front, '.', rest);
    var parts := Split(front + "." + rest, '.');
    assert front in parts && forall l :: l in parts <==> l == front || l in Split(rest, '.');
  }

  /** The labels between the dots are good ones exactly when the characters are as spelled out above. */
  lemma {:induction false} LabelsExact(s: string)
    ensures GoodLabels(s) <==> Spelled(s) && ShortRuns(s)
    decreases |s|
  {
    var i := IndexOf(s, '.');
    var front := s[..i];
    if i == |s| {
      assert front == s && Split(s, '.') == [s];
      hide Spelled, ShortRuns, IsLabel;
      OneLabel(s);
    } else {
      hide Spelled, ShortRuns, IsLabel, GoodLabels, IndexOf;
      var rest := s[i + 1..];
      LabelsExact(rest);
      assert s == front + "." + rest;
      GoodParts(front, rest);
      SpelledParts(front, rest);
      RunsParts(front, rest);
    }
  }

  lemma {:induction false} LastLabelExact(s: string, w: string)
    requires '.' in s && '.' !in w
    ensures |Split(s, '.')| >= 2
    ensures Last(Split(s, '.')) == w <==> EndsWith(s, "." + w)
    decreases |s|
  {
    var i := IndexOf(s, '.');
    hide Split, IndexOf, EndsWith;
    var front, rest := s[..i], s[i + 1..];
    assert s == front + "." + rest;
    SplitFront(front, '.', rest);
    if '.' in rest {
      LastLabelExact(rest, w);
      SuffixBeyond(front, rest, w);
    } else {
      WholeRest(rest);
      EndsWithWhole(front, rest, w);
    }
  }

  lemma WholeRest(rest: string)
    requires '.' !in rest
    ensures Split(rest, '.') == [rest]
  {
    IndexOfMissing(rest, '.');
  }

  lemma SuffixByParts(s: string, w: string)
    ensures EndsWith(s, "." + w) <==> |w| < |s| && s[|s| - |w| - 1] == '.' && s[|s| - |w|..] == w
  {
    if |w| < |s| {
      assert s[|s| - |w| - 1..] == [s[|s| - |w| - 1]] + s[|s| - |w|..];
      assert ("." + w)[1..] == w && ([s[|s| - |w| - 1]] + s[|s| - |w|..])[1..] == s[|s| - |w|..];
    }
  }

  lemma SuffixBeyond(front: string, rest: string, w: string)
    requires '.' in rest && '.' !in w
    ensures EndsWith(front + "." + rest, "." + w) <==> EndsWith(rest, "." + w)
  {
    var s, n := front + "." + rest, |front| + 1;
    SuffixByParts(s, w);
    SuffixByParts(rest, w);
    hide EndsWith;
    if |w| < |rest| {
      assert s[|s| - |w|..] == rest[|rest| - |w|..] && s[|s| - |w| - 1] == rest[|rest| - |w| - 1];
    } else if |w| < |s| {
      var j :| 0 <= j < |rest| && rest[j] == '.';
      assert s[|s| - |w|..][|w| - |rest| + j] == rest[j];
    }
  }

  lemma EndsWithWhole(front: string, rest: string, w: string)
    requires '.' !in rest && '.' !in w
    ensures EndsWith(front + "." + rest, "." + w) <==> rest == w
  {
    var s := front + "." + rest;
    assert s[|front|] == '.' && s[|s| - |rest|..] == rest;
    SuffixByParts(s, w);
    hide EndsWith;
    if |w| < |rest| {
      assert s[|s| - |w| - 1] == rest[|rest| - |w| - 1];
    } else if |rest| < |w| < |s| {
      assert s[|s| - |w|..][|w| - |rest| - 1] == '.';
    }
  }

  ghost predicate PublicName(host: string) {
    && |host| <= 253 && '.' in host && Spelled(host) && ShortRuns(host)
    && !EndsWith(host, ".localhost") && !EndsWith(host, ".local") && !EndsWith(host, ".internal")
    && !EndsWith(host, ".lan") && !EndsWith(host, ".home") && !EndsWith(host, ".home.arpa")
  }

  /** A public name: dotted labels of at most 63 characters, at most 253 in all, and not in a local zone. */
  lemma NameExact(host: string)
    ensures IsPublicName(host) <==> PublicName(host)
  {
    LabelsExact(host);
    if '.' in host {
      LastLabels(host);
    } else {
      WholeRest(host);
    }
    hide Spelled, ShortRuns, Split, EndsWith;
  }

  lemma LastLabels(host: string)
    requires '.' in host
    ensures |Split(host, '.')| >= 2
    ensures Last(Split(host, '.')) in LOCAL_NAMES <==>
              || EndsWith(host, ".localhost") || EndsWith(host, ".local") || EndsWith(host, ".internal")
              || EndsWith(host, ".lan") || EndsWith(host, ".home")
  {
    hide Split, EndsWith;
    var last := Last(Split(host, '.'));
    assert last in LOCAL_NAMES <==>
        last == "localhost" || last == "local" || last == "internal" || last == "lan" || last == "home";
    assert "." + "localhost" == ".localhost" && "." + "local" == ".local" && "." + "internal" == ".internal";
    assert "." + "lan" == ".lan" && "." + "home" == ".home";
    LastLabelExact(host, "localhost");
    LastLabelExact(host, "local");
    LastLabelExact(host, "internal");
    LastLabelExact(host, "lan");
    LastLabelExact(host, "home");
  }

  // ----- hosts -----

  /** A hostname is its host, possibly between brackets. */
  lemma BracketsExact(hostname: string)
    ensures var host := WithoutBrackets(hostname);
            var bracket := hostname != "" && hostname[0] == '[';
            var closed := |hostname| > (if bracket then 1 else 0) && hostname[|hostname| - 1] == ']';
            hostname == (if bracket then "[" else "") + host + (if closed then "]" else "")
  {
  }

  /**
   * A rule may name a host exactly when the URL parser keeps it as it is, and it is a public address, which a
   * wildcard cannot stand before, or a public name, which must be below a public suffix if one does.
   */
  lemma HostExact(hosts: Hosts, hostname: string, subdomains: bool)
    requires hosts.Reasonable()
    ensures ValidHost(hosts, hostname, subdomains) <==>
              && hosts.keptByUrl(hostname)
              && var host := WithoutBrackets(hostname);
              match hosts.address(host)
              case Some(a) => !subdomains && PublicAddress(hosts, a)
              case None => PublicName(host) && (subdomains ==> hosts.belowSuffix(host))
  {
    var host := WithoutBrackets(hostname);
    NameExact(host);
    hide IsPublicName, PublicName;
    if hosts.keptByUrl(hostname) {
      assert hosts.Shaped(hostname);
      if hosts.IsIp(host) {
        PublicAddressExact(hosts, hosts.address(host).value);
      }
    }
  }

  // ----- comparing hosts -----

  /** Lower-casing moves exactly the capital letters, each to its small one. */
  lemma LowerExact(s: string)
    ensures |Lower(s)| == |s|
    ensures forall i | 0 <= i < |s| ::
              if 'A' <= s[i] <= 'Z' then 'a' <= Lower(s)[i] <= 'z' && Lower(s)[i] - 'a' == s[i] - 'A'
              else Lower(s)[i] == s[i]
  {
  }

  lemma {:induction false} TrimExact(s: string) returns (a: string, b: string)
    ensures s == a + (Trim(s) + b)
    ensures forall c | c in a || c in b :: Whitespace(c as int)
    ensures Trim(s) != "" ==> !Whitespace(Trim(s)[0] as int) && !Whitespace(Last(Trim(s)) as int)
  {
    hide Whitespace;
    if s != "" && Whitespace(s[0] as int) {
      a, b := TrimExact(s[1..]);
      a := [s[0]] + a;
    } else if s != "" && Whitespace(Last(s) as int) {
      a, b := TrimExact(s[..|s| - 1]);
      assert s == s[..|s| - 1] + [Last(s)];
      b := b + [Last(s)];
    } else {
      a, b := "", "";
    }
  }

  /** A host as the comparison reads it: without regard to case or to one dot at its end. */
  lemma NormalExact(host: string)
    ensures ConnectionRules.Normalized(Lower(host)) == ConnectionRules.Normalized(host)
    ensures host != "" && Last(host) != '.' ==>
              ConnectionRules.Normalized(host + ".") == ConnectionRules.Normalized(host) == Lower(host)
  {
    assert Lower(Lower(host)) == Lower(host);
    assert Lower(host + ".") == Lower(host) + ".";
  }

  /** A wildcard rule covers exactly the names that end in a dot and its host, another rule exactly its host. */
  lemma IncludesExact(r: Rule, host: string)
    ensures ConnectionRules.IncludesHostname(r, host) <==>
              if r.subdomains then exists front :: ConnectionRules.Normalized(host) == front + ("." + r.hostname)
              else ConnectionRules.Normalized(host) == r.hostname
  {
    var n, suffix := ConnectionRules.Normalized(host), "." + r.hostname;
    if EndsWith(n, suffix) {
      assert n == n[..|n| - |suffix|] + suffix;
    }
    hide ConnectionRules.Normalized;
    if r.subdomains && !EndsWith(n, suffix) {
      forall front ensures n != front + suffix {
        assert (front + suffix)[|front|..] == suffix;
      }
    }
  }

  // ----- drafts -----

  /**
   * A draft is accepted exactly if its host, trimmed and in small letters, is one of letters, digits, dots and
   * hyphens that a rule of its scope may name, its port, where one is asked for, is a number from 1 to 65535, and
   * the origin has at most 512 characters; the origin is then spelled as follows.
   */
  lemma DraftExact(hosts: Hosts, d: Draft)
    ensures var host, port := Lower(Trim(d.host)), Trim(d.port);
            var wellFormed :=
              && host != "" && (forall c | c in host :: 'a' <= c <= 'z' || '0' <= c <= '9' || c == '.' || c == '-')
              && (d.ports.Specific? ==>
                    port != "" && (forall c | c in port :: '0' <= c <= '9') && 1 <= Decimals.Value(port) <= 65535);
            && (DraftOrigin(hosts, d).Success? ==> wellFormed)
            && (wellFormed ==>
                  var origin :=
                    (if d.mode.HTTPS? then "https://" else "wss://")
                    + ((if d.scope.Subdomains? then "*." else "")
                       + (host + if d.ports.All? then ":*"
                                 else if Decimals.Value(port) == 443 then ""
                                 else ":" + Decimals.Numeral(Decimals.Value(port))));
                  DraftOrigin(hosts, d) ==
                  if ValidHost(hosts, host, d.scope.Subdomains?) && |origin| <= 512 then Success(origin)
                  else Failure(HostField))
  {
    DraftAccepted(hosts, d);
    hide ValidHost, Read, Lower, Trim;
  }
}

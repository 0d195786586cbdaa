/**
 * Cleaning a file name component. Unicode normalisation is a parameter: any function that keeps surrogates paired.
 */
module SanitizedNames {
  import opened Characters
  import opened Utf16
  import opened Segments
  import opened Filenames

  type Normaliser = Text -> Text

  ghost predicate KeepsPairs(nfc: Normaliser) {
    forall s: Text | Paired(s) :: Paired(nfc(s))
  }

  // ----- the steps -----

  function Underscored(s: Text): (r: Text)
    ensures |r| == |s|
    ensures forall i | 0 <= i < |s| :: r[i] == if Replaceable(s[i]) then UNDERSCORE else s[i]
  {
    seq(|s|, i requires 0 <= i < |s| => if Replaceable(s[i]) then UNDERSCORE else s[i])
  }

  /** Each run of white space becomes one space. */
  function Collapse(s: Text): Text
    decreases |s|
  {
    if s == [] then []
    else if Whitespace(s[0]) then [SPACE] + Collapse(TrimStart(s[1..]))
    else [s[0]] + Collapse(s[1..])
  }

  /** Drops dots and spaces from the end. */
  function StripEnd(s: Text): (r: Text)
    ensures r <= s
    ensures r != [] ==> Last(r) != DOT && Last(r) != SPACE
  {
    if s != [] && (Last(s) == DOT || Last(s) == SPACE) then StripEnd(s[..|s| - 1]) else s
  }

  function Cleaned(value: Text, nfc: Normaliser): Text {
    StripEnd(Collapse(Underscored(Trim(nfc(Replaced(value))))))
  }

  function Sanitize(value: Text, fallback: Text, nfc: Normaliser): Text {
    var cleaned := Cleaned(value, nfc);
    var named := if cleaned == [] || IsDots(cleaned) then fallback else cleaned;
    if Reserved(BaseName(named)) then [UNDERSCORE] + named else named
  }

  // ----- what comes out -----

  predicate SingleSpaced(s: Text) {
    forall i | 0 <= i < |s| && Whitespace(s[i]) :: s[i] == SPACE && (i + 1 < |s| ==> !Whitespace(s[i + 1]))
  }

  predicate Clean(s: Text) {
    && s != [] && Paired(s) && SingleSpaced(s) && !Whitespace(s[0])
    && Last(s) != DOT && Last(s) != SPACE
    && forall u | u in s :: !Replaceable(u)
  }

  /** A component that can stand in a file name as it is. */
  predicate Neat(s: Text) {
    Clean(s) && !Reserved(BaseName(s))
  }

  lemma {:induction false} TrimStartPaired(s: Text)
    requires Paired(s)
    ensures Paired(TrimStart(s))
  {
    if s != [] && Whitespace(s[0]) {
      PairedTail(s);
      TrimStartPaired(s[1..]);
    }
  }

  lemma {:induction false} TrimEndPaired(s: Text)
    requires Paired(s)
    ensures Paired(TrimEnd(s))
  {
    if s != [] && Whitespace(Last(s)) {
      PairedFront(s);
      TrimEndPaired(s[..|s| - 1]);
    }
  }

  lemma {:induction false} StripEndPaired(s: Text)
    requires Paired(s)
    ensures Paired(StripEnd(s))
  {
    if s != [] && (Last(s) == DOT || Last(s) == SPACE) {
      PairedFront(s);
      StripEndPaired(s[..|s| - 1]);
    }
  }

  lemma OneUnitPaired(u: Unit)
    requires !IsSurrogate(u)
    ensures Paired([u])
  {
  }

  lemma PairIsPaired(high: Unit, low: Unit)
    requires IsHigh(high) && IsLow(low)
    ensures Paired([high, low])
  {
  }

  lemma CollapseStep(s: Text)
    requires s != []
    ensures Collapse(s) ==
            if StartsWithPair(s) then [s[0], s[1]] + Collapse(s[2..])
            else if Whitespace(s[0]) then [SPACE] + Collapse(TrimStart(s[1..]))
            else [s[0]] + Collapse(s[1..])
  {
    if StartsWithPair(s) {
      var next := s[1..];
      assert next[1..] == s[2..];
      assert Collapse(s) == [s[0]] + Collapse(next) && Collapse(next) == [s[1]] + Collapse(s[2..]);
      hide Collapse;
      Regroup([s[0]], [s[1]], Collapse(s[2..]));
      assert [s[0]] + [s[1]] == [s[0], s[1]];
    }
  }

  lemma {:induction false} CollapsePaired(s: Text)
    requires Paired(s)
    ensures Paired(Collapse(s))
    decreases |s|
  {
    if s == [] {
    } else {
      PairedTail(s);
      CollapseStep(s);
      hide Paired, Collapse, Whitespace;
      if StartsWithPair(s) {
        CollapsePaired(s[2..]);
        PairIsPaired(s[0], s[1]);
        PairedConcat([s[0], s[1]], Collapse(s[2..]));
      } else if Whitespace(s[0]) {
        TrimStartPaired(s[1..]);
        CollapsePaired(TrimStart(s[1..]));
        OneUnitPaired(SPACE);
        PairedConcat([SPACE], Collapse(TrimStart(s[1..])));
      } else {
        CollapsePaired(s[1..]);
        OneUnitPaired(s[0]);
        PairedConcat([s[0]], Collapse(s[1..]));
      }
    }
  }

  /** Only spaces are new, single ones, and the front stays in front. */
  lemma {:induction false} CollapseSingles(s: Text)
    ensures SingleSpaced(Collapse(s))
    ensures forall u | u in Collapse(s) :: u in s || u == SPACE
    ensures (s == [] <==> Collapse(s) == []) && (s != [] && !Whitespace(s[0]) ==> Collapse(s)[0] == s[0])
    decreases |s|
  {
    if s == [] {
    } else {
      var rest := if Whitespace(s[0]) then TrimStart(s[1..]) else s[1..];
      CollapseSingles(rest);
      assert forall u | u in rest :: u in s;
      var r := Collapse(s);
      assert r == [r[0]] + Collapse(rest);
      hide Collapse;
      assert Whitespace(r[0]) ==> rest == [] || !Whitespace(rest[0]);
      SingleSpacedLonger(r[0], Collapse(rest));
    }
  }

  lemma SingleSpacedLonger(u: Unit, rest: Text)
    requires SingleSpaced(rest) && (Whitespace(u) ==> u == SPACE && (rest != [] ==> !Whitespace(rest[0])))
    ensures SingleSpaced([u] + rest)
  {
  }

  lemma TrimmedFront(s: Text)
    ensures Trim(s) != [] ==> !Whitespace(Trim(s)[0])
  {
  }

  lemma UnderscoredFront(s: Text)
    requires s != [] && !Whitespace(s[0])
    ensures !Whitespace(Underscored(s)[0])
  {
  }

  lemma UnderscoredClasses(s: Text)
    ensures forall u | u in Underscored(s) :: !Replaceable(u)
  {
  }

  lemma PrefixSingleSpaced(p: Text, s: Text)
    requires p <= s && SingleSpaced(s)
    ensures SingleSpaced(p)
  {
  }

  lemma UnderscoredPaired(s: Text)
    requires Paired(s)
    ensures Paired(Underscored(s))
  {
    hide Paired;
    PairedAlike(s, Underscored(s));
  }

  lemma CleanedIsPaired(value: Text, nfc: Normaliser)
    requires KeepsPairs(nfc)
    ensures Paired(Cleaned(value, nfc))
  {
    hide Paired, Replaced, TrimStart, TrimEnd, Underscored, Collapse, StripEnd;
    ReplacedIsPaired(value);
    var normal := nfc(Replaced(value));
    TrimStartPaired(normal);
    TrimEndPaired(TrimStart(normal));
    var trimmed := Trim(normal);
    UnderscoredPaired(trimmed);
    CollapsePaired(Underscored(trimmed));
    StripEndPaired(Collapse(Underscored(trimmed)));
  }

  lemma CleanedIsClean(value: Text, nfc: Normaliser)
    requires KeepsPairs(nfc) && Cleaned(value, nfc) != []
    ensures Clean(Cleaned(value, nfc)) && !IsDots(Cleaned(value, nfc))
  {
    var trimmed := Trim(nfc(Replaced(value)));
    var marked := Underscored(trimmed);
    var collapsed := Collapse(marked);
    CleanedIsPaired(value, nfc);
    TrimmedFront(nfc(Replaced(value)));
    CollapseSingles(marked);
    UnderscoredClasses(trimmed);
    hide Paired, Collapse, Replaceable, Whitespace, SingleSpaced, Trim;
    var r := StripEnd(collapsed);
    assert trimmed != [] && !Whitespace(trimmed[0]);
    UnderscoredFront(trimmed);
    PrefixSingleSpaced(r, collapsed);
    assert r[0] == marked[0];
    SpaceIsKept();
    assert forall u | u in r :: u in collapsed;
  }

  lemma SpaceIsKept()
    ensures !Replaceable(SPACE) && !Replaceable(UNDERSCORE) && !Whitespace(UNDERSCORE) && Whitespace(SPACE)
  {
  }

  lemma UnderscoredBase(s: Text)
    ensures !Reserved(BaseName([UNDERSCORE] + s))
  {
    var t := [UNDERSCORE] + s;
    var base := t[..IndexOf(t, DOT)];
    assert base[0] == UNDERSCORE;
    SpaceIsKept();
    hide Trim, Whitespace, Reserved;
    TrimKeeps(base, UNDERSCORE);
    ReservedHasNoUnderscore(BaseName(t));
  }

  lemma UnderscoreInFront(s: Text)
    requires Clean(s)
    ensures Neat([UNDERSCORE] + s)
  {
    hide Paired, SingleSpaced, Whitespace, Replaceable, Reserved, BaseName;
    SpaceIsKept();
    OneUnitPaired(UNDERSCORE);
    PairedConcat([UNDERSCORE], s);
    SingleSpacedLonger(UNDERSCORE, s);
    UnderscoredBase(s);
    assert Last([UNDERSCORE] + s) == Last(s);
  }

  /** With a fallback that is neat itself, everything that comes out is neat. */
  lemma SanitizedIsNeat(value: Text, fallback: Text, nfc: Normaliser)
    requires KeepsPairs(nfc) && Neat(fallback)
    ensures Neat(Sanitize(value, fallback, nfc))
  {
    hide Clean, Cleaned, Reserved, BaseName;
    var cleaned := Cleaned(value, nfc);
    if cleaned != [] {
      CleanedIsClean(value, nfc);
    }
    var named := if cleaned == [] || IsDots(cleaned) then fallback else cleaned;
    if Reserved(BaseName(named)) {
      UnderscoreInFront(named);
    }
  }

  // ----- no character is lost -----

  /** A character that cleaning has no reason to touch. */
  predicate Plain(u: int) {
    !Whitespace(u) && !Replaceable(u) && u != DOT && u != UNDERSCORE
  }

  function PlainPart(s: Text): Text {
    if s == [] then [] else PlainPart(s[..|s| - 1]) + if Plain(Last(s)) then [Last(s)] else []
  }

  lemma {:induction false} PlainConcat(a: Text, b: Text)
    ensures PlainPart(a + b) == PlainPart(a) + PlainPart(b)
  {
    if b == [] {
      assert a + b == a;
    } else {
      assert (a + b)[..|a + b| - 1] == a + b[..|b| - 1];
      PlainConcat(a, b[..|b| - 1]);
    }
  }

  lemma PlainCons(u: Unit, rest: Text)
    ensures PlainPart([u] + rest) == if Plain(u) then [u] + PlainPart(rest) else PlainPart(rest)
  {
    PlainConcat([u], rest);
    assert [u][..0] == [];
  }

  lemma {:induction false} TrimStartPlain(s: Text)
    ensures PlainPart(TrimStart(s)) == PlainPart(s)
  {
    if s != [] && Whitespace(s[0]) {
      TrimStartPlain(s[1..]);
      PlainCons(s[0], s[1..]);
      assert s == [s[0]] + s[1..];
    }
  }

  lemma {:induction false} TrimEndPlain(s: Text)
    ensures PlainPart(TrimEnd(s)) == PlainPart(s)
  {
    if s != [] && Whitespace(Last(s)) {
      TrimEndPlain(s[..|s| - 1]);
    }
  }

  lemma {:induction false} StripEndPlain(s: Text)
    ensures PlainPart(StripEnd(s)) == PlainPart(s)
  {
    if s != [] && (Last(s) == DOT || Last(s) == SPACE) {
      SpaceIsKept();
      StripEndPlain(s[..|s| - 1]);
    }
  }

  lemma {:induction false} UnderscoredPlain(s: Text)
    ensures PlainPart(Underscored(s)) == PlainPart(s)
  {
    if s == [] {
    } else {
      UnderscoredPlain(s[..|s| - 1]);
      assert Underscored(s)[..|s| - 1] == Underscored(s[..|s| - 1]);
    }
  }

  lemma {:induction false} CollapsePlain(s: Text)
    ensures PlainPart(Collapse(s)) == PlainPart(s)
    decreases |s|
  {
    if s == [] {
    } else {
      hide PlainPart, Plain, Replaceable;
      SpaceIsKept();
      PlainCons(s[0], s[1..]);
      assert s == [s[0]] + s[1..];
      WhitespaceIsNotPlain(s[0]);
      WhitespaceIsNotPlain(SPACE);
      if Whitespace(s[0]) {
        TrimStartPlain(s[1..]);
        CollapsePlain(TrimStart(s[1..]));
        PlainCons(SPACE, Collapse(TrimStart(s[1..])));
      } else {
        CollapsePlain(s[1..]);
        PlainCons(s[0], Collapse(s[1..]));
      }
    }
  }

  lemma WhitespaceIsNotPlain(u: int)
    ensures Whitespace(u) ==> !Plain(u)
  {
  }

  lemma CleanedPlain(value: Text, nfc: Normaliser)
    ensures PlainPart(Cleaned(value, nfc)) == PlainPart(nfc(Replaced(value)))
    ensures !IsDots(Cleaned(value, nfc))
  {
    hide PlainPart, Collapse, TrimStart, TrimEnd, Underscored, Replaced, Replaceable;
    var normal := nfc(Replaced(value));
    TrimStartPlain(normal);
    TrimEndPlain(TrimStart(normal));
    UnderscoredPlain(Trim(normal));
    CollapsePlain(Underscored(Trim(normal)));
    StripEndPlain(Collapse(Underscored(Trim(normal))));
  }

  lemma NothingPlain()
    ensures PlainPart([]) == [] && !Plain(UNDERSCORE)
  {
  }

  /** Letters, digits and the like are neither lost, added nor reordered: only what is unsafe is cleaned. */
  lemma PlainCharactersKept(value: Text, fallback: Text, nfc: Normaliser)
    ensures PlainPart(Sanitize(value, fallback, nfc)) ==
            PlainPart(if Cleaned(value, nfc) == [] then fallback else nfc(Replaced(value)))
    ensures Cleaned(value, nfc) == [] ==> PlainPart(nfc(Replaced(value))) == []
  {
    hide Cleaned, Reserved, BaseName, PlainPart, Plain, IsDots, Replaced;
    CleanedPlain(value, nfc);
    NothingPlain();
    var cleaned := Cleaned(value, nfc);
    PlainCons(UNDERSCORE, cleaned);
    PlainCons(UNDERSCORE, fallback);
  }

  // ----- what stays the same -----

  lemma {:induction false} CollapseNothing(s: Text)
    requires SingleSpaced(s)
    ensures Collapse(s) == s
    decreases |s|
  {
    if s == [] {
    } else {
      var rest := s[1..];
      assert forall i | 0 <= i < |rest| :: rest[i] == s[i + 1];
      CollapseNothing(rest);
      assert [s[0]] + rest == s;
    }
  }

  lemma StepsKeepClean(s: Text)
    requires Clean(s)
    ensures Replaced(s) == s && Trim(s) == s && Underscored(s) == s && Collapse(s) == s && StripEnd(s) == s
            && !IsDots(s)
  {
    ReplacedIsPaired(s);
    CollapseNothing(s);
    assert Last(s) in s;
  }

  /** The names that cleaning leaves alone, where normalisation does, are exactly the neat ones. */
  lemma FixedPointsAreNeat(s: Text, fallback: Text, nfc: Normaliser)
    requires KeepsPairs(nfc) && Neat(fallback) && nfc(s) == s
    ensures Sanitize(s, fallback, nfc) == s <==> Neat(s)
  {
    SanitizedIsNeat(s, fallback, nfc);
    hide Reserved, BaseName, Clean;
    if Neat(s) {
      StepsKeepClean(s);
    }
  }

  /** So cleaning twice, where normalisation leaves the first result alone, is cleaning once. */
  lemma SanitizeTwice(value: Text, first: Text, second: Text, nfc: Normaliser)
    requires KeepsPairs(nfc) && Neat(first) && Neat(second)
    requires nfc(Sanitize(value, first, nfc)) == Sanitize(value, first, nfc)
    ensures Sanitize(Sanitize(value, first, nfc), second, nfc) == Sanitize(value, first, nfc)
  {
    hide Neat, Sanitize;
    SanitizedIsNeat(value, first, nfc);
    FixedPointsAreNeat(Sanitize(value, first, nfc), second, nfc);
  }

  // ----- neat names and validation -----

  lemma NeatHasNoFaults(s: Text, reason: Reason)
    requires Neat(s) && !reason.TooLong?
    ensures !Faulty(s, reason)
  {
    hide Reserved, BaseName, Paired, SingleSpaced;
    if reason.Empty? {
      assert s[0] in s;
      TrimKeeps(s, s[0]);
    }
  }

  /** A neat name of bounded length passes validation. */
  lemma NeatIsPortable(s: Text)
    requires Neat(s) && |Utf8(s)| <= MAX_PORTABLE_FILENAME_BYTES
    ensures Portable(s)
  {
    hide Neat, Faulty, Utf8;
    forall reason: Reason ensures !Faulty(s, reason) {
      if reason.TooLong? {
        NotTooLong(s);
      } else {
        NeatHasNoFaults(s, reason);
      }
    }
  }

  lemma NotTooLong(s: Text)
    requires |Utf8(s)| <= MAX_PORTABLE_FILENAME_BYTES
    ensures !Faulty(s, TooLong)
  {
  }

  // ----- the steps one by one -----

  /** Only dots and spaces are dropped at the end. */
  lemma {:induction false} StripEndExact(s: Text)
    ensures forall i | |StripEnd(s)| <= i < |s| :: s[i] == DOT || s[i] == SPACE
  {
    if s != [] && (Last(s) == DOT || Last(s) == SPACE) {
      StripEndExact(s[..|s| - 1]);
    }
  }

  /** A run of white space, with none on either side of it, becomes one space. */
  lemma {:induction false} CollapseRun(a: Text, run: Text, b: Text)
    requires run != [] && (forall u | u in run :: Whitespace(u))
    requires (forall u | u in a :: !Whitespace(u)) && (b != [] ==> !Whitespace(b[0]))
    ensures Collapse(a + run + b) == a + [SPACE] + Collapse(b)
    decreases |a|
  {
    var s := a + run + b;
    if a == [] {
      assert s == run + b && s[1..] == run[1..] + b;
      TrimRun(run[1..], b);
      assert s[0] == run[0] && run[0] in run;
    } else {
      assert s[1..] == a[1..] + run + b && s[0] == a[0];
      CollapseRun(a[1..], run, b);
      assert Collapse(s) == [a[0]] + (a[1..] + [SPACE] + Collapse(b));
    }
  }

  lemma {:induction false} TrimRun(run: Text, b: Text)
    requires (forall u | u in run :: Whitespace(u)) && (b != [] ==> !Whitespace(b[0]))
    ensures TrimStart(run + b) == b
  {
    if run == [] {
      assert run + b == b;
    } else {
      assert (run + b)[1..] == run[1..] + b && (run + b)[0] == run[0] && run[0] in run;
      TrimRun(run[1..], b);
    }
  }

  /** What is cleaned stays as it is, unless nothing is left of it or its base name is reserved. */
  lemma SanitizeExact(value: Text, fallback: Text, nfc: Normaliser)
    ensures var cleaned := Cleaned(value, nfc);
            && (cleaned != [] && cleaned != [DOT] && cleaned != [DOT, DOT] && !Reserved(BaseName(cleaned)) ==>
                  Sanitize(value, fallback, nfc) == cleaned)
            && (Reserved(BaseName(cleaned)) ==> Sanitize(value, fallback, nfc) == [UNDERSCORE] + cleaned)
            && (cleaned == [] && !Reserved(BaseName(fallback)) ==> Sanitize(value, fallback, nfc) == fallback)
  {
    hide Cleaned;
    var cleaned := Cleaned(value, nfc);
    if cleaned == [] || IsDots(cleaned) {
      DotsNotReserved(cleaned);
    }
  }

  lemma DotsNotReserved(s: Text)
    requires s == [] || IsDots(s)
    ensures !Reserved(BaseName(s))
  {
    assert BaseName(s) == [];
  }
}

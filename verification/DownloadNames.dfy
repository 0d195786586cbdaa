/** The file name offered for a game download, and how it is put into the Content-Disposition header. */
module DownloadNames {
  import opened Wrappers
  import opened Characters
  import opened Utf16
  import opened UriComponent
  import opened Segments
  import opened Sorting
  import opened Filenames
  import opened SanitizedNames

  /** "game", "unknown", ".zip" and "game.zip". */
  const GAME: Text := [0x67, 0x61, 0x6D, 0x65]
  const UNKNOWN: Text := [0x75, 0x6E, 0x6B, 0x6E, 0x6F, 0x77, 0x6E]
  const ZIP: Text := [0x2E, 0x7A, 0x69, 0x70]
  const GAME_DOWNLOAD_FALLBACK_FILENAME: Text := [0x67, 0x61, 0x6D, 0x65, 0x2E, 0x7A, 0x69, 0x70]

  datatype Member = Member(id: int, name: Text, studentId: Text, sortOrder: int)

  // ----- members in order -----

  predicate Before(a: Member, b: Member) {
    a.sortOrder < b.sortOrder || (a.sortOrder == b.sortOrder && a.id < b.id)
  }

  /** The stable sort by sort order, then id. */
  function SortMembers(members: seq<Member>): seq<Member> {
    Sort(members, Before)
  }

  /** Members are sorted, and none is lost. */
  lemma MembersSorted(members: seq<Member>)
    ensures InOrder(SortMembers(members), Before) && multiset(SortMembers(members)) == multiset(members)
  {
    SortSorts(members, Before);
  }

  predicate DistinctIds(ms: seq<Member>) {
    forall i, j | 0 <= i < j < |ms| :: ms[i].id != ms[j].id
  }

  lemma NoneBeforeHead(a: seq<Member>, m: Member)
    requires InOrder(a, Before) && m in a
    ensures !Before(m, a[0])
  {
  }

  lemma SameIdAsHead(a: seq<Member>, m: Member)
    requires DistinctIds(a) && m in a && m.id == a[0].id
    ensures m == a[0]
  {
  }

  lemma SameHead(a: seq<Member>, b: seq<Member>)
    requires a != [] && b != [] && InOrder(a, Before) && InOrder(b, Before) && DistinctIds(a) && a[0] in b && b[0] in a
    ensures a[0] == b[0]
  {
    hide InOrder, DistinctIds;
    NoneBeforeHead(a, b[0]);
    NoneBeforeHead(b, a[0]);
    SameIdAsHead(a, b[0]);
  }

  lemma TailOf(a: seq<Member>)
    requires a != [] && InOrder(a, Before) && DistinctIds(a)
    ensures InOrder(a[1..], Before) && DistinctIds(a[1..])
  {
    hide Before;
  }

  lemma TailInOrder(a: seq<Member>)
    requires a != [] && InOrder(a, Before)
    ensures InOrder(a[1..], Before)
  {
    hide Before;
  }

  lemma TailMultiset(a: seq<Member>)
    requires a != []
    ensures multiset(a[1..]) == multiset(a) - multiset{a[0]}
  {
    assert a == [a[0]] + a[1..];
  }

  lemma {:induction false} OneOrder(a: seq<Member>, b: seq<Member>)
    requires InOrder(a, Before) && InOrder(b, Before) && DistinctIds(a) && multiset(a) == multiset(b)
    ensures a == b
  {
    hide InOrder, DistinctIds;
    assert |multiset(a)| == |multiset(b)|;
    if a == [] {
    } else {
      assert a[0] in multiset(b) && b[0] in multiset(a);
      SameHead(a, b);
      TailOf(a);
      TailInOrder(b);
      TailMultiset(a);
      TailMultiset(b);
      OneOrder(a[1..], b[1..]);
      assert a == [a[0]] + a[1..] && b == [b[0]] + b[1..];
    }
  }

  lemma IdsDiffer(a: seq<Member>, m: Member, n: Member)
    requires DistinctIds(a) && m in a && n in a && m != n
    ensures m.id != n.id
  {
    var x :| 0 <= x < |a| && a[x] == m;
    var y :| 0 <= y < |a| && a[y] == n;
  }

  lemma {:induction false} DistinctIdsKept(a: seq<Member>, b: seq<Member>)
    requires multiset(a) == multiset(b) && DistinctIds(a)
    ensures DistinctIds(b)
  {
    forall i, j | 0 <= i < j < |b| ensures b[i].id != b[j].id {
      var rest := b[..i] + b[i + 1..j] + b[j + 1..];
      assert b == b[..i] + [b[i]] + b[i + 1..j] + [b[j]] + b[j + 1..];
      assert multiset(b) == multiset(rest) + multiset{b[i], b[j]};
      SeenOnce(a, b[i]);
      assert multiset(a)[b[i]] >= if b[i] == b[j] then 2 else 1;
      assert b[i] in multiset(a) && b[j] in multiset(a);
      IdsDiffer(a, b[i], b[j]);
    }
  }

  lemma {:induction false} SeenOnce(a: seq<Member>, m: Member)
    requires DistinctIds(a)
    ensures multiset(a)[m] <= 1
  {
    if a == [] {
    } else {
      SeenOnce(a[1..], m);
      assert a == [a[0]] + a[1..];
      assert a[0] !in a[1..];
    }
  }

  /** Members with distinct ids are named in the same order however they are listed. */
  lemma MemberOrderIrrelevant(a: seq<Member>, b: seq<Member>)
    requires multiset(a) == multiset(b) && DistinctIds(a)
    ensures SortMembers(a) == SortMembers(b)
  {
    MembersSorted(a);
    MembersSorted(b);
    DistinctIdsKept(a, SortMembers(a));
    OneOrder(SortMembers(a), SortMembers(b));
  }

  // ----- building the name -----

  function MemberComponents(sorted: seq<Member>, nfc: Normaliser): seq<Text> {
    if sorted == [] then []
    else MemberComponents(sorted[..|sorted| - 1], nfc)
         + [Sanitize(Last(sorted).name, UNKNOWN, nfc), Sanitize(Last(sorted).studentId, UNKNOWN, nfc)]
  }

  /** Title and members joined by underscores, with the extension. */
  function FullName(title: Text, members: seq<Member>, nfc: Normaliser): Text {
    Join([Sanitize(title, GAME, nfc)] + MemberComponents(SortMembers(members), nfc), UNDERSCORE) + ZIP
  }

  /** Whatever the title and the members, the name passes validation. */
  method BuildGameDownloadFilename(title: Text, members: seq<Member>, nfc: Normaliser)
    returns (filename: Text, usedFallback: bool)
    requires KeepsPairs(nfc)
    ensures Portable(filename)
    ensures usedFallback <==> |Utf8(FullName(title, members, nfc))| > 255
    ensures filename == if usedFallback then GAME_DOWNLOAD_FALLBACK_FILENAME else FullName(title, members, nfc)
  {
    hide Portable, Sanitize, Utf8, SortMembers;
    var components := [Sanitize(title, GAME, nfc)];
    var sorted := SortMembers(members);
    for i := 0 to |sorted|
      invariant components == [Sanitize(title, GAME, nfc)] + MemberComponents(sorted[..i], nfc)
    {
      assert sorted[..i + 1][..i] == sorted[..i];
      components := components + [Sanitize(sorted[i].name, UNKNOWN, nfc)];
      components := components + [Sanitize(sorted[i].studentId, UNKNOWN, nfc)];
    }
    assert sorted[..|sorted|] == sorted;
    filename := Join(components, UNDERSCORE) + ZIP;
    var length := Utf8ByteLength(filename);
    if length > MAX_PORTABLE_FILENAME_BYTES {
      FallbackIsPortable();
      return GAME_DOWNLOAD_FALLBACK_FILENAME, true;
    }
    FullNameIsPortable(title, members, nfc);
    return filename, false;
  }

  lemma BaseOfLonger(s: Text, more: Text)
    requires DOT in s || (more != [] && more[0] == DOT)
    ensures BaseName(s + more) == BaseName(s)
  {
    hide Trim;
    var i := IndexOf(s, DOT);
    if i < |s| {
      IndexOfFirst(s[..i], DOT, s[i + 1..] + more);
      assert s + more == s[..i] + [DOT] + (s[i + 1..] + more);
      assert (s + more)[..i] == s[..i];
    } else {
      IndexOfFirst(s, DOT, more[1..]);
      assert more == [DOT] + more[1..];
      assert s + more == s + [DOT] + more[1..];
      assert (s + more)[..|s|] == s == s[..i];
    }
  }

  lemma BaseWithUnderscore(s: Text, more: Text)
    requires DOT !in s && more != [] && more[0] == UNDERSCORE
    ensures UNDERSCORE in BaseName(s + more)
  {
    var t := s + more;
    IndexOfBeyond(s, DOT, more);
    var i := IndexOf(t, DOT);
    assert t[..i][|s|] == UNDERSCORE;
    SpaceIsKept();
    TrimKeeps(t[..i], UNDERSCORE);
  }

  /** A neat name stays neat when an underscore or the extension, and anything neat enough, is put behind it. */
  lemma LongerNameKeepsBase(s: Text, more: Text)
    requires Neat(s) && more != [] && (more[0] == UNDERSCORE || more[0] == DOT)
    ensures !Reserved(BaseName(s + more))
  {
    hide BaseName, Clean, Reserved;
    if DOT in s || more[0] == DOT {
      BaseOfLonger(s, more);
    } else {
      BaseWithUnderscore(s, more);
      ReservedHasNoUnderscore(BaseName(s + more));
    }
  }

  lemma LongerNameIsClean(s: Text, mark: Unit, more: Text)
    requires Clean(s) && Clean(more) && (mark == UNDERSCORE || mark == DOT)
    ensures Clean(s + [mark] + more)
  {
    OneUnitPaired(mark);
    PairedConcat(s, [mark]);
    PairedConcat(s + [mark], more);
    hide Paired;
    SingleSpacedJoined(s, mark, more);
    var t := s + [mark] + more;
    hide SingleSpaced;
    assert Last(t) == Last(more) && t[0] == s[0];
    forall u | u in t ensures !Replaceable(u) {
      assert u in s || u == mark || u in more;
    }
  }

  lemma SingleSpacedJoined(s: Text, mark: Unit, more: Text)
    requires SingleSpaced(s) && SingleSpaced(more) && !Whitespace(mark)
    ensures SingleSpaced(s + [mark] + more)
  {
    var t := s + [mark] + more;
    forall i | 0 <= i < |t| && Whitespace(t[i]) ensures t[i] == SPACE && (i + 1 < |t| ==> !Whitespace(t[i + 1])) {
      if i < |s| {
        assert t[i] == s[i];
      } else {
        assert t[i] == more[i - |s| - 1];
      }
    }
  }

  lemma LongerNameIsNeat(s: Text, mark: Unit, more: Text)
    requires Neat(s) && Clean(more) && (mark == UNDERSCORE || mark == DOT)
    ensures Neat(s + [mark] + more)
  {
    hide BaseName, Reserved, Clean;
    LongerNameIsClean(s, mark, more);
    LongerNameKeepsBase(s, [mark] + more);
    assert s + [mark] + more == s + ([mark] + more);
  }

  lemma {:induction false} JoinedIsNeat(components: seq<Text>)
    requires components != [] && forall c | c in components :: Neat(c)
    ensures Neat(Join(components, UNDERSCORE))
  {
    if |components| > 1 {
      hide Reserved, BaseName, Clean;
      JoinedIsNeat(components[1..]);
      LongerNameIsNeat(components[0], UNDERSCORE, Join(components[1..], UNDERSCORE));
    }
  }

  lemma {:induction false} MemberComponentsNeat(sorted: seq<Member>, nfc: Normaliser)
    requires KeepsPairs(nfc)
    ensures forall c | c in MemberComponents(sorted, nfc) :: Neat(c)
  {
    if sorted == [] {
    } else {
      hide Neat, Sanitize, MemberComponents;
      FallbacksNeat();
      var front, last := sorted[..|sorted| - 1], Last(sorted);
      MemberComponentsNeat(front, nfc);
      SanitizedIsNeat(last.name, UNKNOWN, nfc);
      SanitizedIsNeat(last.studentId, UNKNOWN, nfc);
      LastComponents(sorted, nfc);
      BothNeat(MemberComponents(front, nfc), Sanitize(last.name, UNKNOWN, nfc), Sanitize(last.studentId, UNKNOWN, nfc));
    }
  }

  lemma LastComponents(sorted: seq<Member>, nfc: Normaliser)
    requires sorted != []
    ensures MemberComponents(sorted, nfc) ==
            MemberComponents(sorted[..|sorted| - 1], nfc)
            + [Sanitize(Last(sorted).name, UNKNOWN, nfc), Sanitize(Last(sorted).studentId, UNKNOWN, nfc)]
  {
    hide Sanitize;
  }

  lemma BothNeat(front: seq<Text>, a: Text, b: Text)
    requires Neat(a) && Neat(b) && forall c | c in front :: Neat(c)
    ensures forall c | c in front + [a, b] :: Neat(c)
  {
    hide Neat;
  }

  predicate LettersOnly(s: Text) {
    forall u | u in s :: 0x61 <= u <= 0x7A
  }

  lemma {:induction false} NoTrim(s: Text)
    requires s == [] || (!Whitespace(s[0]) && !Whitespace(Last(s)))
    ensures Trim(s) == s
  {
  }

  /** A word of small letters that is not reserved is neat. */
  lemma WordIsNeat(s: Text)
    requires s != [] && LettersOnly(s) && !Reserved(s)
    ensures Neat(s)
  {
    assert s[0] in s && Last(s) in s;
    assert forall i | 0 <= i < |s| :: s[i] in s;
    assert Clean(s);
    NoTrim(s);
    hide Clean, LettersOnly, Reserved, Trim;
    IndexOfMissing(s, DOT);
    assert s[..|s|] == s;
  }

  lemma FallbacksNeat()
    ensures Neat(GAME) && Neat(UNKNOWN) && Neat(GAME_DOWNLOAD_FALLBACK_FILENAME)
  {
    hide Neat, Clean, BaseName;
    WordIsNeat(GAME);
    WordIsNeat(UNKNOWN);
    var zip: Text := [0x7A, 0x69, 0x70];
    WordIsNeat(zip);
    NeatIsClean(zip);
    LongerNameIsNeat(GAME, DOT, zip);
    assert GAME_DOWNLOAD_FALLBACK_FILENAME == GAME + [DOT] + zip;
  }

  lemma NeatIsClean(s: Text)
    requires Neat(s)
    ensures Clean(s)
  {
  }

  /** Before its length is looked at, the full name has no other fault. */
  lemma FullNameIsNeat(title: Text, members: seq<Member>, nfc: Normaliser)
    requires KeepsPairs(nfc)
    ensures Neat(FullName(title, members, nfc))
  {
    hide Neat, Clean, Sanitize;
    var components := [Sanitize(title, GAME, nfc)] + MemberComponents(SortMembers(members), nfc);
    FallbacksNeat();
    SanitizedIsNeat(title, GAME, nfc);
    MemberComponentsNeat(SortMembers(members), nfc);
    JoinedIsNeat(components);
    var zip: Text := [0x7A, 0x69, 0x70];
    WordIsNeat(zip);
    NeatIsClean(zip);
    LongerNameIsNeat(Join(components, UNDERSCORE), DOT, zip);
    assert Join(components, UNDERSCORE) + ZIP == Join(components, UNDERSCORE) + [DOT] + zip;
  }

  lemma FullNameIsPortable(title: Text, members: seq<Member>, nfc: Normaliser)
    requires KeepsPairs(nfc) && |Utf8(FullName(title, members, nfc))| <= MAX_PORTABLE_FILENAME_BYTES
    ensures Portable(FullName(title, members, nfc))
  {
    hide FullName, Utf8, Neat, Portable;
    FullNameIsNeat(title, members, nfc);
    NeatIsPortable(FullName(title, members, nfc));
  }

  lemma {:induction false} AsciiLength(s: Text)
    requires forall u | u in s :: u < 0x80
    ensures |Utf8(s)| == |s|
  {
    if s == [] {
    } else {
      assert s[0] in s && forall u | u in s[1..] :: u in s;
      AsciiLength(s[1..]);
    }
  }

  lemma FallbackIsPortable()
    ensures Portable(GAME_DOWNLOAD_FALLBACK_FILENAME)
  {
    hide Neat, Portable, Utf8;
    FallbacksNeat();
    AsciiLength(GAME_DOWNLOAD_FALLBACK_FILENAME);
    NeatIsPortable(GAME_DOWNLOAD_FALLBACK_FILENAME);
  }

  // ----- the header -----

  /** ' ( ) * */
  predicate Rfc5987Mark(u: int) {
    u in {0x27, 0x28, 0x29, 0x2A}
  }

  /** What the value keeps: unreserved characters and the exclamation mark. */
  predicate Rfc5987Kept(u: int) {
    Unreserved(u) || u == 0x21
  }

  /** attr-char of section 3.2.1 of RFC 5987. */
  predicate AttrChar(u: int) {
    IsLetter(u) || IsDigit(u) || u in {0x21, 0x23, 0x24, 0x26, 0x2B, 0x2D, 0x2E, 0x5E, 0x5F, 0x60, 0x7C, 0x7E}
  }

  function EncodeRfc5987Value(value: Text): Option<Text> {
    match EncodeUriComponent(value)
    case None => None
    case Some(t) => Some(EscapeAgain(t, Rfc5987Mark))
  }

  /** The value of the filename* parameter, after the charset and the empty language. */
  function ExtendedName(filename: Text, nfc: Normaliser): Option<Text> {
    EncodeRfc5987Value(Sanitize(filename, GAME_DOWNLOAD_FALLBACK_FILENAME, nfc))
  }

  lemma Rfc5987Encoded(value: Text)
    requires Paired(value)
    ensures EncodeRfc5987Value(value) == Some(Escape(value, Rfc5987Kept))
  {
    TwoPasses(value, UriKept, Rfc5987Mark, Rfc5987Kept);
  }

  /** The header never fails to be built, says only what it may, and decodes back to a neat name. */
  lemma ExtendedNameDecodes(filename: Text, nfc: Normaliser)
    requires KeepsPairs(nfc)
    ensures ExtendedName(filename, nfc).Some?
    ensures Escaped(ExtendedName(filename, nfc).value, AttrChar)
    ensures DecodeUriComponent(ExtendedName(filename, nfc).value) ==
              Some(Sanitize(filename, GAME_DOWNLOAD_FALLBACK_FILENAME, nfc))
    ensures Neat(Sanitize(filename, GAME_DOWNLOAD_FALLBACK_FILENAME, nfc))
  {
    hide Neat, Sanitize, Escape, Escaped, DecodeUriComponent, Paired, EncodeRfc5987Value;
    FallbacksNeat();
    SanitizedIsNeat(filename, GAME_DOWNLOAD_FALLBACK_FILENAME, nfc);
    var safe := Sanitize(filename, GAME_DOWNLOAD_FALLBACK_FILENAME, nfc);
    NeatIsClean(safe);
    Rfc5987Encoded(safe);
    EscapeEscapes(safe, Rfc5987Kept);
    KeepMore(Escape(safe, Rfc5987Kept), Rfc5987Kept, AttrChar);
    RoundTrip(safe, Rfc5987Kept);
  }

  // ----- the name spelled out -----

  lemma ConstantsExact()
    ensures Reads(GAME, "game") && Reads(UNKNOWN, "unknown") && Reads(ZIP, ".zip")
    ensures Reads(GAME_DOWNLOAD_FALLBACK_FILENAME, "game.zip")
  {
  }

  /** Of two members the one with the smaller sort order comes first, and among equals the one with the smaller id. */
  lemma OrderExact(members: seq<Member>)
    ensures var sorted := SortMembers(members);
            forall i, j | 0 <= i < j < |sorted| ::
              || sorted[i].sortOrder < sorted[j].sortOrder
              || (sorted[i].sortOrder == sorted[j].sortOrder && sorted[i].id <= sorted[j].id)
  {
    MembersSorted(members);
    hide Sort;
  }

  /** An underscore and the name, an underscore and the student id, member by member. */
  function MemberTexts(sorted: seq<Member>, nfc: Normaliser): Text {
    if sorted == [] then []
    else
      [UNDERSCORE] + Sanitize(sorted[0].name, UNKNOWN, nfc) + [UNDERSCORE] + Sanitize(sorted[0].studentId, UNKNOWN, nfc)
      + MemberTexts(sorted[1..], nfc)
  }

  lemma {:induction false} ComponentsFromFront(sorted: seq<Member>, nfc: Normaliser)
    requires sorted != []
    ensures MemberComponents(sorted, nfc) ==
            [Sanitize(sorted[0].name, UNKNOWN, nfc), Sanitize(sorted[0].studentId, UNKNOWN, nfc)]
            + MemberComponents(sorted[1..], nfc)
  {
    hide Sanitize;
    if |sorted| == 1 {
      assert sorted[1..] == [] && sorted[..0] == [];
    } else {
      var front := sorted[..|sorted| - 1];
      ComponentsFromFront(front, nfc);
      assert front[1..] == sorted[1..][..|sorted| - 2] && Last(sorted[1..]) == Last(sorted);
    }
  }

  lemma {:induction false} JoinedMembers(first: Text, sorted: seq<Member>, nfc: Normaliser)
    ensures Join([first] + MemberComponents(sorted, nfc), UNDERSCORE) == first + MemberTexts(sorted, nfc)
    decreases |sorted|
  {
    hide Sanitize;
    if sorted == [] {
      assert [first] + MemberComponents(sorted, nfc) == [first];
    } else {
      var name, id := Sanitize(sorted[0].name, UNKNOWN, nfc), Sanitize(sorted[0].studentId, UNKNOWN, nfc);
      var later := MemberComponents(sorted[1..], nfc);
      ComponentsFromFront(sorted, nfc);
      JoinedMembers(id, sorted[1..], nfc);
      hide MemberComponents, Join;
      var parts := [first] + MemberComponents(sorted, nfc);
      assert parts == [first, name, id] + later;
      JoinStep(parts, UNDERSCORE);
      assert parts[1..] == [name, id] + later && parts[1..][1..] == [id] + later;
      JoinStep(parts[1..], UNDERSCORE);
      var rest := Join([id] + later, UNDERSCORE);
      assert Join(parts, UNDERSCORE) == first + ([UNDERSCORE] + (name + ([UNDERSCORE] + rest)));
      assert MemberTexts(sorted, nfc) == [UNDERSCORE] + name + [UNDERSCORE] + id + MemberTexts(sorted[1..], nfc);
    }
  }

  /** The full name: the title, each member's name and student id in order, and the extension. */
  lemma FullNameExact(title: Text, members: seq<Member>, nfc: Normaliser)
    ensures FullName(title, members, nfc) ==
            Sanitize(title, GAME, nfc) + MemberTexts(SortMembers(members), nfc) + ZIP
  {
    hide Sanitize, SortMembers;
    JoinedMembers(Sanitize(title, GAME, nfc), SortMembers(members), nfc);
  }
}

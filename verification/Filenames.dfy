/** Portable file names: the three surrogate scans, what upload names may not be, and how unsafe names are cleaned. */
module Filenames {
  import opened Characters
  import opened Utf16
  import opened Segments

  const MAX_PORTABLE_FILENAME_BYTES: nat := 255

  // ----- the scans -----

  /** The scan adds up the true length of the UTF-8 encoding, three octets for each lone surrogate. */
  method Utf8ByteLength(value: Text) returns (bytes: nat)
    ensures bytes == |Utf8(value)|
  {
    hide Octets;
    bytes := 0;
    var i := 0;
    while i < |value|
      invariant i <= |value| && bytes + |Utf8(value[i..])| == |Utf8(value)|
    {
      var rest := value[i..];
      OctetsLength(FirstCode(rest));
      assert rest[1..] == value[i + 1..];
      var code := value[i];
      if code <= 0x7F {
        bytes := bytes + 1;
      } else if code <= 0x7FF {
        bytes := bytes + 2;
      } else if IsHigh(code) && i + 1 < |value| && IsLow(value[i + 1]) {
        bytes := bytes + 4;
        assert rest[2..] == value[i + 2..];
        i := i + 1;
      } else {
        bytes := bytes + 3;
      }
      i := i + 1;
    }
  }

  lemma OctetsLength(c: int)
    requires 0 <= c < 0x110000
    ensures |Octets(c)| == if c <= 0x7F then 1 else if c <= 0x7FF then 2 else if c <= 0xFFFF then 3 else 4
  {
  }

  method HasUnpairedSurrogate(value: Text) returns (found: bool)
    ensures found <==> !Paired(value)
  {
    var i := 0;
    while i < |value|
      invariant i <= |value| && (i > 0 ==> !IsHigh(value[i - 1]))
      invariant forall j | 0 <= j < i :: !LoneAt(value, j)
    {
      var code := value[i];
      if IsHigh(code) {
        if i + 1 < |value| && IsLow(value[i + 1]) {
          i := i + 2;
          continue;
        }
        assert LoneAt(value, i);
        return true;
      }
      if IsLow(code) {
        assert LoneAt(value, i);
        return true;
      }
      i := i + 1;
    }
    return false;
  }

  /** Each lone surrogate becomes an underscore, everything else stays. */
  function Replaced(s: Text): (r: Text)
    ensures |r| == |s|
    ensures forall i | 0 <= i < |s| :: r[i] == if LoneAt(s, i) then UNDERSCORE else s[i]
  {
    seq(|s|, i requires 0 <= i < |s| => if LoneAt(s, i) then UNDERSCORE else s[i])
  }

  method ReplaceUnpairedSurrogates(value: Text) returns (result: Text)
    ensures result == Replaced(value)
  {
    result := [];
    var i := 0;
    while i < |value|
      invariant i <= |value| && |result| == i
      invariant 0 < i < |value| && IsHigh(value[i - 1]) ==> !IsLow(value[i])
      invariant forall j | 0 <= j < i :: result[j] == Replaced(value)[j]
    {
      var code := value[i];
      if IsHigh(code) {
        if i + 1 < |value| && IsLow(value[i + 1]) {
          result := result + [value[i], value[i + 1]];
          i := i + 1;
        } else {
          result := result + [UNDERSCORE];
        }
      } else if IsLow(code) {
        result := result + [UNDERSCORE];
      } else {
        result := result + [value[i]];
      }
      i := i + 1;
    }
  }

  /** The scans agree: replacing leaves nothing for the check to find, and changes only what it finds. */
  lemma ReplacedIsPaired(s: Text)
    ensures Paired(Replaced(s))
    ensures Replaced(s) == s <==> Paired(s)
  {
    var r := Replaced(s);
    forall i | 0 <= i < |r| ensures !LoneAt(r, i) {
      if !LoneAt(s, i) && IsHigh(s[i]) {
        assert !LoneAt(s, i + 1);
      } else if !LoneAt(s, i) && IsLow(s[i]) {
        assert !LoneAt(s, i - 1);
      }
    }
    if Replaced(s) == s {
      assert Paired(s);
    }
  }

  // ----- character classes -----

  predicate Separator(u: int) {
    u == SLASH || u == BACKSLASH
  }

  /** < > : " | ? * */
  predicate Forbidden(u: int) {
    u == 0x3C || u == 0x3E || u == 0x3A || u == 0x22 || u == 0x7C || u == QUERY || u == 0x2A
  }

  predicate Control(u: int) {
    0 <= u <= 0x1F || 0x7F <= u <= 0x9F
  }

  predicate BidiControl(u: int) {
    0x202A <= u <= 0x202E || 0x2066 <= u <= 0x2069
  }

  predicate Replaceable(u: int) {
    Control(u) || BidiControl(u) || Forbidden(u) || Separator(u)
  }

  // ----- trimming and base names -----

  function TrimStart(s: Text): (r: Text)
    ensures |r| <= |s| && r == s[|s| - |r|..]
    ensures r != [] ==> !Whitespace(r[0])
  {
    if s != [] && Whitespace(s[0]) then TrimStart(s[1..]) else s
  }

  function TrimEnd(s: Text): (r: Text)
    ensures r <= s
    ensures r != [] ==> !Whitespace(Last(r))
  {
    if s != [] && Whitespace(Last(s)) then TrimEnd(s[..|s| - 1]) else s
  }

  function Trim(s: Text): Text {
    TrimEnd(TrimStart(s))
  }

  lemma {:induction false} TrimStartKeeps(s: Text, u: Unit)
    requires u in s && !Whitespace(u)
    ensures u in TrimStart(s)
  {
    if Whitespace(s[0]) {
      assert s == [s[0]] + s[1..];
      TrimStartKeeps(s[1..], u);
    }
  }

  lemma {:induction false} TrimEndKeeps(s: Text, u: Unit)
    requires u in s && !Whitespace(u)
    ensures u in TrimEnd(s)
  {
    if Whitespace(Last(s)) {
      assert s == s[..|s| - 1] + [Last(s)];
      TrimEndKeeps(s[..|s| - 1], u);
    }
  }

  lemma TrimKeeps(s: Text, u: Unit)
    requires u in s && !Whitespace(u)
    ensures u in Trim(s)
  {
    TrimStartKeeps(s, u);
    TrimEndKeeps(TrimStart(s), u);
  }

  function BaseName(s: Text): Text {
    Trim(s[..IndexOf(s, DOT)])
  }

  /** The letter, in either case. */
  predicate IsEither(u: int, lower: int) {
    u == lower || u == lower - 0x20
  }

  predicate Spells(s: Text, a: int, b: int, c: int)
    requires |s| >= 3
  {
    IsEither(s[0], a) && IsEither(s[1], b) && IsEither(s[2], c)
  }

  /** con, prn, aux, nul, com1 to com9 and lpt1 to lpt9, in any case. */
  predicate Reserved(s: Text) {
    || (|s| == 3
        && (Spells(s, 0x63, 0x6F, 0x6E) || Spells(s, 0x70, 0x72, 0x6E) || Spells(s, 0x61, 0x75, 0x78)
            || Spells(s, 0x6E, 0x75, 0x6C)))
    || (|s| == 4 && 0x31 <= s[3] <= 0x39 && (Spells(s, 0x63, 0x6F, 0x6D) || Spells(s, 0x6C, 0x70, 0x74)))
  }

  lemma ReservedHasNoUnderscore(s: Text)
    requires UNDERSCORE in s
    ensures !Reserved(s)
  {
  }

  // ----- validation -----

  datatype Reason =
    | Empty | TooLong | DotSegment | PathSeparator | ForbiddenCharacter
    | ControlCharacter | BidiCharacter | InvalidUnicode | TrailingDotOrSpace | ReservedBasename

  predicate Contains(s: Text, kind: int -> bool) {
    exists u :: u in s && kind(u)
  }

  predicate Faulty(s: Text, reason: Reason) {
    match reason
    case Empty => Trim(s) == []
    case TooLong => |Utf8(s)| > MAX_PORTABLE_FILENAME_BYTES
    case DotSegment => IsDots(s)
    case PathSeparator => Contains(s, Separator)
    case ForbiddenCharacter => Contains(s, Forbidden)
    case ControlCharacter => Contains(s, Control)
    case BidiCharacter => Contains(s, BidiControl)
    case InvalidUnicode => !Paired(s)
    case TrailingDotOrSpace => s != [] && (Last(s) == DOT || Last(s) == SPACE)
    case ReservedBasename => Reserved(BaseName(s))
  }

  predicate Portable(s: Text) {
    forall reason: Reason :: !Faulty(s, reason)
  }

  function Rank(reason: Reason): nat {
    match reason
    case Empty => 0
    case TooLong => 1
    case DotSegment => 2
    case PathSeparator => 3
    case ForbiddenCharacter => 4
    case ControlCharacter => 5
    case BidiCharacter => 6
    case InvalidUnicode => 7
    case TrailingDotOrSpace => 8
    case ReservedBasename => 9
  }

  /** Exactly the faults among the first `k` reasons, each once, in order. */
  ghost predicate Lists(s: Text, reasons: seq<Reason>, k: nat) {
    && (forall i, j | 0 <= i < j < |reasons| :: Rank(reasons[i]) < Rank(reasons[j]))
    && (forall reason: Reason :: reason in reasons <==> Rank(reason) < k && Faulty(s, reason))
  }

  method Note(filename: Text, reasons: seq<Reason>, reason: Reason, found: bool) returns (more: seq<Reason>)
    requires Lists(filename, reasons, Rank(reason)) && (found <==> Faulty(filename, reason))
    ensures Lists(filename, more, Rank(reason) + 1)
  {
    hide Faulty;
    more := if found then reasons + [reason] else reasons;
    forall i, j | 0 <= i < j < |more| ensures Rank(more[i]) < Rank(more[j]) {
      assert more[i] in reasons;
    }
  }

  /** The reasons are exactly the faults of the name, each once and in a fixed order. */
  method ValidateUploadFilename(filename: Text) returns (reasons: seq<Reason>)
    ensures Lists(filename, reasons, 10)
    ensures reasons == [] <==> Portable(filename)
  {
    hide Lists, Portable, Trim, IsDots, Contains, Reserved, BaseName, Utf8, Paired;
    var byteLength := Utf8ByteLength(filename);
    var unpaired := HasUnpairedSurrogate(filename);
    NothingListed(filename);
    reasons := Note(filename, [], Empty, Trim(filename) == []);
    reasons := Note(filename, reasons, TooLong, byteLength > MAX_PORTABLE_FILENAME_BYTES);
    reasons := Note(filename, reasons, DotSegment, IsDots(filename));
    reasons := Note(filename, reasons, PathSeparator, Contains(filename, Separator));
    reasons := Note(filename, reasons, ForbiddenCharacter, Contains(filename, Forbidden));
    reasons := Note(filename, reasons, ControlCharacter, Contains(filename, Control));
    reasons := Note(filename, reasons, BidiCharacter, Contains(filename, BidiControl));
    reasons := Note(filename, reasons, InvalidUnicode, unpaired);
    reasons := Note(filename, reasons, TrailingDotOrSpace,
                    filename != [] && (Last(filename) == DOT || Last(filename) == SPACE));
    reasons := Note(filename, reasons, ReservedBasename, Reserved(BaseName(filename)));
    AllListed(filename, reasons);
  }

  lemma NothingListed(s: Text)
    ensures Lists(s, [], 0)
  {
  }

  lemma AllListed(s: Text, reasons: seq<Reason>)
    requires Lists(s, reasons, 10)
    ensures reasons == [] <==> Portable(s)
  {
    hide Faulty;
    if reasons != [] {
      assert reasons[0] in reasons;
    }
  }

  // ----- the classes in letters -----

  /** The code units of a text of characters below U+10000. */
  ghost predicate Reads(s: Text, text: string) {
    |s| == |text| && forall i | 0 <= i < |s| :: s[i] == text[i] as int
  }

  /** The same text, but for the case of the letters a to z. */
  ghost predicate ReadsInAnyCase(s: Text, text: string) {
    && |s| == |text|
    && forall i | 0 <= i < |s| ::
         s[i] == text[i] as int || ('a' <= text[i] <= 'z' && s[i] == text[i] as int - 32)
  }

  ghost predicate OneOf(u: int, text: string) {
    exists i :: 0 <= i < |text| && text[i] as int == u
  }

  /** The characters that a name must not contain. */
  lemma ClassesExact(u: int)
    ensures Separator(u) <==> OneOf(u, "/\\")
    ensures Forbidden(u) <==> OneOf(u, "<>:\"|?*")
    ensures Control(u) <==> 0 <= u < 0x20 || 0x7F <= u < 0xA0
    ensures BidiControl(u) <==> 0x202A <= u < 0x202F || 0x2066 <= u < 0x206A
    ensures Replaceable(u) <==> Separator(u) || Forbidden(u) || Control(u) || BidiControl(u)
  {
    var marks := "<>:\"|?*";
    assert marks[0] == '<' && marks[1] == '>' && marks[2] == ':' && marks[3] == '"' && marks[4] == '|';
    assert marks[5] == '?' && marks[6] == '*' && |marks| == 7;
    var slashes := "/\\";
    assert slashes[0] == '/' && slashes[1] == '\\' && |slashes| == 2;
  }

  /** A name that the operating system keeps for itself. */
  lemma ReservedExact(s: Text)
    ensures Reserved(s) <==>
              || ReadsInAnyCase(s, "con") || ReadsInAnyCase(s, "prn")
              || ReadsInAnyCase(s, "aux") || ReadsInAnyCase(s, "nul")
              || exists d :: '1' <= d <= '9' && (ReadsInAnyCase(s, "com" + [d]) || ReadsInAnyCase(s, "lpt" + [d]))
  {
    if |s| == 3 {
      ThreeLetters(s, "con");
      ThreeLetters(s, "prn");
      ThreeLetters(s, "aux");
      ThreeLetters(s, "nul");
    } else if |s| == 4 {
      forall d: char | '1' <= d <= '9'
        ensures ReadsInAnyCase(s, "com" + [d]) <==> Spells(s, 0x63, 0x6F, 0x6D) && s[3] == d as int
        ensures ReadsInAnyCase(s, "lpt" + [d]) <==> Spells(s, 0x6C, 0x70, 0x74) && s[3] == d as int
      {
        FourLetters(s, "com", d);
        FourLetters(s, "lpt", d);
      }
      if 0x31 <= s[3] <= 0x39 {
        var d := s[3] as char;
        assert '1' <= d <= '9' && d as int == s[3];
        assert ReadsInAnyCase(s, "com" + [d]) || ReadsInAnyCase(s, "lpt" + [d]) || !Reserved(s);
      }
      hide Spells;
    }
  }

  lemma ThreeLetters(s: Text, name: string)
    requires |s| == 3 && |name| == 3 && forall c | c in name :: 'a' <= c <= 'z'
    ensures ReadsInAnyCase(s, name) <==> Spells(s, name[0] as int, name[1] as int, name[2] as int)
  {
    assert name[0] in name && name[1] in name && name[2] in name;
  }

  lemma FourLetters(s: Text, name: string, d: char)
    requires |s| == 4 && |name| == 3 && '1' <= d <= '9' && forall c | c in name :: 'a' <= c <= 'z'
    ensures ReadsInAnyCase(s, name + [d]) <==>
              Spells(s, name[0] as int, name[1] as int, name[2] as int) && s[3] == d as int
  {
    var whole := name + [d];
    assert name[0] in name && name[1] in name && name[2] in name;
    assert whole[0] == name[0] && whole[1] == name[1] && whole[2] == name[2] && whole[3] == d;
  }

  /** Trimming takes white space from both ends, as much as there is, and nothing else. */
  lemma {:induction false} TrimStartExact(s: Text)
    ensures forall i | 0 <= i < |s| - |TrimStart(s)| :: Whitespace(s[i])
  {
    if s != [] && Whitespace(s[0]) {
      TrimStartExact(s[1..]);
      assert forall i | 1 <= i < |s| :: s[i] == s[1..][i - 1];
    }
  }

  lemma {:induction false} TrimEndExact(s: Text)
    ensures forall i | |TrimEnd(s)| <= i < |s| :: Whitespace(s[i])
  {
    if s != [] && Whitespace(Last(s)) {
      TrimEndExact(s[..|s| - 1]);
    }
  }

  lemma TrimExact(s: Text) returns (a: Text, b: Text)
    ensures s == a + (Trim(s) + b)
    ensures forall u | u in a || u in b :: Whitespace(u)
    ensures Trim(s) != [] ==> !Whitespace(Trim(s)[0]) && !Whitespace(Last(Trim(s)))
  {
    var t := TrimStart(s);
    TrimStartExact(s);
    TrimEndExact(t);
    a, b := s[..|s| - |t|], t[|TrimEnd(t)|..];
    assert t == TrimEnd(t) + b;
  }

  lemma {:induction false} TrimStartAround(a: Text, t: Text)
    requires (forall u | u in a :: Whitespace(u)) && (t != [] ==> !Whitespace(t[0]))
    ensures TrimStart(a + t) == t
  {
    if a == [] {
      assert a + t == t;
    } else {
      assert (a + t)[1..] == a[1..] + t && (a + t)[0] == a[0] && a[0] in a;
      TrimStartAround(a[1..], t);
    }
  }

  lemma {:induction false} TrimEndAround(t: Text, b: Text)
    requires (forall u | u in b :: Whitespace(u)) && (t != [] ==> !Whitespace(Last(t)))
    ensures TrimEnd(t + b) == t
  {
    if b == [] {
      assert t + b == t;
    } else {
      assert (t + b)[..|t + b| - 1] == t + b[..|b| - 1] && Last(t + b) == Last(b) && Last(b) in b;
      TrimEndAround(t, b[..|b| - 1]);
    }
  }

  /** What stands before the first dot is this text, but for white space around it. */
  ghost predicate BaseReads(s: Text, a: Text, base: Text, b: Text) {
    s[..IndexOf(s, DOT)] == a + (base + b) && forall u | u in a || u in b :: Whitespace(u)
  }

  /** A name is reserved by what stands before its first dot, whatever white space is around that. */
  lemma ReservedBaseExact(s: Text)
    ensures Reserved(BaseName(s)) <==> exists a, base, b :: BaseReads(s, a, base, b) && Reserved(base)
  {
    hide Reserved, IndexOf;
    var front := s[..IndexOf(s, DOT)];
    var a, b := TrimExact(front);
    assert BaseReads(s, a, BaseName(s), b);
    forall a, base, b | BaseReads(s, a, base, b) && Reserved(base) ensures BaseName(s) == base {
      ReservedHasNoSpace(base);
      TrimStartAround(a, base + b);
      TrimEndAround(base, b);
    }
  }

  lemma ReservedHasNoSpace(s: Text)
    requires Reserved(s)
    ensures s != [] && !Whitespace(s[0]) && !Whitespace(Last(s))
  {
  }

  lemma OnlySpaceExact(s: Text)
    ensures Trim(s) == [] <==> forall u | u in s :: Whitespace(u)
  {
    assert s + [] == s;
    if forall u | u in s :: Whitespace(u) {
      TrimStartAround(s, []);
    }
    forall u | u in s && !Whitespace(u) ensures Trim(s) != [] {
      TrimKeeps(s, u);
    }
  }

  lemma ContainsExact(s: Text)
    ensures Contains(s, Separator) <==> exists u :: u in s && OneOf(u, "/\\")
    ensures Contains(s, Forbidden) <==> exists u :: u in s && OneOf(u, "<>:\"|?*")
    ensures Contains(s, Control) <==> exists u :: u in s && (u < 0x20 || 0x7F <= u < 0xA0)
    ensures Contains(s, BidiControl) <==> exists u :: u in s && (0x202A <= u < 0x202F || 0x2066 <= u < 0x206A)
  {
    forall u ensures (Separator(u) <==> OneOf(u, "/\\")) && (Forbidden(u) <==> OneOf(u, "<>:\"|?*")) {
      ClassesExact(u);
    }
    hide Separator, Forbidden, OneOf;
  }

  /** Each fault of a name, in plain terms. */
  lemma FaultsExact(s: Text)
    ensures Faulty(s, Empty) <==> forall u | u in s :: Whitespace(u)
    ensures Faulty(s, TooLong) <==> |Utf8(s)| > 255
    ensures Faulty(s, DotSegment) <==> s == [DOT] || s == [DOT, DOT]
    ensures Faulty(s, PathSeparator) <==> exists u :: u in s && OneOf(u, "/\\")
    ensures Faulty(s, ForbiddenCharacter) <==> exists u :: u in s && OneOf(u, "<>:\"|?*")
    ensures Faulty(s, ControlCharacter) <==> exists u :: u in s && (u < 0x20 || 0x7F <= u < 0xA0)
    ensures Faulty(s, BidiCharacter) <==> exists u :: u in s && (0x202A <= u < 0x202F || 0x2066 <= u < 0x206A)
    ensures Faulty(s, InvalidUnicode) <==> exists i :: 0 <= i < |s| && LoneAt(s, i)
    ensures Faulty(s, TrailingDotOrSpace) <==> s != [] && (s[|s| - 1] == 0x2E || s[|s| - 1] == 0x20)
    ensures Faulty(s, ReservedBasename) <==> exists a, base, b :: BaseReads(s, a, base, b) && Reserved(base)
  {
    OnlySpaceExact(s);
    ReservedBaseExact(s);
    ContainsExact(s);
    hide Contains, OneOf, Reserved, BaseName, BaseReads, Trim, Utf8, Whitespace;
  }
}

/** encodeURIComponent and decodeURIComponent, as sections 19.2.6.1 to 19.2.6.6 of ECMA-262 define them. */
module UriComponent {
  import opened Wrappers
  import opened Bytes
  import opened Utf16

  const PERCENT: Unit := 0x25

  // ----- characters -----

  predicate IsDigit(u: int) {
    0x30 <= u <= 0x39
  }

  predicate IsLetter(u: int) {
    0x41 <= u <= 0x5A || 0x61 <= u <= 0x7A
  }

  /** The unreserved characters of section 2.3 of RFC 3986: letters, digits, hyphen, period, underscore, tilde. */
  predicate Unreserved(u: int) {
    IsLetter(u) || IsDigit(u) || u in {0x2D, 0x2E, 0x5F, 0x7E}
  }

  /** What encodeURIComponent leaves alone: those, and ! ' ( ) * besides. */
  predicate UriKept(u: int) {
    Unreserved(u) || u in {0x21, 0x27, 0x28, 0x29, 0x2A}
  }

  predicate UpperHex(u: int) {
    IsDigit(u) || 0x41 <= u <= 0x46
  }

  function HexUnit(n: int): (u: Unit)
    requires 0 <= n < 16
    ensures UpperHex(u) && HexValue(u) == Some(n)
  {
    if n < 10 then 0x30 + n else 0x41 + (n - 10)
  }

  /** Digits of either case are read. */
  function HexValue(u: int): (r: Option<int>)
    ensures r.Some? ==> 0 <= r.value < 16
  {
    if IsDigit(u) then Some(u - 0x30)
    else if 0x41 <= u <= 0x46 then Some(u - 0x41 + 10)
    else if 0x61 <= u <= 0x66 then Some(u - 0x61 + 10)
    else None
  }

  // ----- encoding -----

  function Percent(b: Byte): (t: Text)
    ensures |t| == 3
  {
    [PERCENT, HexUnit(b / 16), HexUnit(b % 16)]
  }

  function PercentAll(o: seq<Byte>): Text {
    if o == [] then [] else Percent(o[0]) + PercentAll(o[1..])
  }

  type Kept = int -> bool

  function EscapeCode(c: int, kept: Kept): Text
    requires 0 <= c < 0x110000
  {
    if c < 0x80 && kept(c) then [c] else PercentAll(Octets(c))
  }

  /** Every character that is not kept becomes the escapes of its UTF-8 octets. */
  function Escape(s: Text, kept: Kept): Text {
    if s == [] then [] else EscapeCode(FirstCode(s), kept) + Escape(s[Step(s)..], kept)
  }

  /** A lone surrogate makes the encoder throw. */
  function EncodeUriComponent(s: Text): Option<Text> {
    if Paired(s) then Some(Escape(s, UriKept)) else None
  }

  /** A second pass over encoded text that also escapes some characters the first one kept. */
  function EscapeAgain(t: Text, marks: Kept): Text {
    if t == [] then [] else (if t[0] < 0x100 && marks(t[0]) then Percent(t[0]) else [t[0]]) + EscapeAgain(t[1..], marks)
  }

  lemma {:induction false} EscapeAgainConcat(a: Text, b: Text, marks: Kept)
    ensures EscapeAgain(a + b, marks) == EscapeAgain(a, marks) + EscapeAgain(b, marks)
  {
    if a == [] {
      assert a + b == b;
    } else {
      assert (a + b)[1..] == a[1..] + b;
      EscapeAgainConcat(a[1..], b, marks);
    }
  }

  /** The second pass only looks at characters that never occur in an escape. */
  ghost predicate Separate(marks: Kept) {
    forall u | UpperHex(u) || u == PERCENT :: !marks(u)
  }

  lemma {:induction false} EscapesUntouched(o: seq<Byte>, marks: Kept)
    requires Separate(marks)
    ensures EscapeAgain(PercentAll(o), marks) == PercentAll(o)
  {
    if o == [] {
    } else {
      EscapesUntouched(o[1..], marks);
      EscapeAgainConcat(Percent(o[0]), PercentAll(o[1..]), marks);
      PercentUntouched(o[0], marks);
    }
  }

  lemma PercentUntouched(b: Byte, marks: Kept)
    requires Separate(marks)
    ensures EscapeAgain(Percent(b), marks) == Percent(b)
  {
    var t := Percent(b);
    assert EscapeAgain(t[3..], marks) == [];
    assert t[2..][1..] == t[3..] && t[1..][1..] == t[2..];
    assert EscapeAgain(t[2..], marks) == [t[2]];
    assert EscapeAgain(t[1..], marks) == [t[1]] + [t[2]];
    assert EscapeAgain(t, marks) == [t[0]] + ([t[1]] + [t[2]]);
  }

  /** Two passes together are one pass that keeps less. */
  lemma {:induction false} TwoPasses(s: Text, kept: Kept, marks: Kept, both: Kept)
    requires Separate(marks) && (forall c :: both(c) <==> kept(c) && !marks(c))
    ensures EscapeAgain(Escape(s, kept), marks) == Escape(s, both)
    decreases |s|
  {
    if s == [] {
    } else {
      var c := FirstCode(s);
      TwoPasses(s[Step(s)..], kept, marks, both);
      EscapeAgainConcat(EscapeCode(c, kept), Escape(s[Step(s)..], kept), marks);
      TwoPassesOver(c, kept, marks, both);
    }
  }

  lemma TwoPassesOver(c: int, kept: Kept, marks: Kept, both: Kept)
    requires 0 <= c < 0x110000 && Separate(marks) && (both(c) <==> kept(c) && !marks(c))
    ensures EscapeAgain(EscapeCode(c, kept), marks) == EscapeCode(c, both)
  {
    if c < 0x80 && kept(c) {
      assert [c][1..] == [];
      assert Octets(c) == [c];
      assert PercentAll([c]) == Percent(c) + PercentAll([]);
      assert EscapeAgain([c], marks) == (if marks(c) then Percent(c) else [c]) + EscapeAgain([], marks);
    } else {
      EscapesUntouched(Octets(c), marks);
    }
  }

  // ----- what encoded text looks like -----

  /** Kept characters and escapes with two upper-case hexadecimal digits, and nothing else. */
  predicate Escaped(t: Text, kept: Kept) {
    t != [] ==>
      || (t[0] < 0x80 && kept(t[0]) && Escaped(t[1..], kept))
      || (|t| >= 3 && t[0] == PERCENT && UpperHex(t[1]) && UpperHex(t[2]) && Escaped(t[3..], kept))
  }

  lemma {:induction false} EscapedConcat(a: Text, b: Text, kept: Kept)
    requires Escaped(a, kept) && Escaped(b, kept)
    ensures Escaped(a + b, kept)
    decreases |a|
  {
    if a == [] {
      assert a + b == b;
    } else if a[0] < 0x80 && kept(a[0]) && Escaped(a[1..], kept) {
      assert (a + b)[1..] == a[1..] + b;
      EscapedConcat(a[1..], b, kept);
    } else {
      assert (a + b)[3..] == a[3..] + b;
      EscapedConcat(a[3..], b, kept);
    }
  }

  lemma {:induction false} PercentAllEscaped(o: seq<Byte>, kept: Kept)
    ensures Escaped(PercentAll(o), kept)
  {
    if o == [] {
    } else {
      PercentAllEscaped(o[1..], kept);
      assert PercentAll(o)[3..] == PercentAll(o[1..]);
    }
  }

  lemma {:induction false} EscapeEscapes(s: Text, kept: Kept)
    ensures Escaped(Escape(s, kept), kept)
    decreases |s|
  {
    if s == [] {
    } else {
      var c := FirstCode(s);
      EscapeEscapes(s[Step(s)..], kept);
      if c < 0x80 && kept(c) {
        assert [c][1..] == [];
      } else {
        PercentAllEscaped(Octets(c), kept);
      }
      EscapedConcat(EscapeCode(c, kept), Escape(s[Step(s)..], kept), kept);
    }
  }

  lemma {:induction false} KeepMore(t: Text, kept: Kept, more: Kept)
    requires Escaped(t, kept) && forall u | kept(u) :: more(u)
    ensures Escaped(t, more)
    decreases |t|
  {
    if t == [] {
    } else {
      if t[0] < 0x80 && kept(t[0]) && Escaped(t[1..], kept) {
        KeepMore(t[1..], kept, more);
      } else {
        KeepMore(t[3..], kept, more);
      }
    }
  }

  // ----- decoding -----

  function OctetAt(t: Text): Option<Byte> {
    if |t| >= 3 && t[0] == PERCENT && HexValue(t[1]).Some? && HexValue(t[2]).Some?
      then Some(16 * HexValue(t[1]).value + HexValue(t[2]).value) else None
  }

  function OctetsAt(t: Text, n: nat): (r: Option<seq<Byte>>)
    ensures r.Some? ==> |r.value| == n && 3 * n <= |t|
  {
    if n == 0 then Some([])
    else
      match OctetAt(t)
      case None => None
      case Some(b) =>
        match OctetsAt(t[3..], n - 1)
        case None => None
        case Some(rest) => Some([b] + rest)
  }

  /** The code point escaped at the front, and how many code units its escapes take. */
  function CodeAt(t: Text): (r: Option<(int, nat)>)
    ensures r.Some? ==> 0 <= r.value.0 < 0x110000 && 0 < r.value.1 <= |t|
  {
    match OctetAt(t)
    case None => None
    case Some(lead) =>
      var n := Announced(lead);
      if n == 0 then None
      else
        match OctetsAt(t, n)
        case None => None
        case Some(o) =>
          match FromOctets(o)
          case None => None
          case Some(c) => Some((c, 3 * n))
  }

  function Prepend(s: Text, rest: Option<Text>): Option<Text> {
    match rest
    case None => None
    case Some(t) => Some(s + t)
  }

  function DecodeUriComponent(t: Text): Option<Text>
    decreases |t|
  {
    if t == [] then Some([])
    else if t[0] != PERCENT then Prepend([t[0]], DecodeUriComponent(t[1..]))
    else
      match CodeAt(t)
      case None => None
      case Some((c, n)) => Prepend(Units(c), DecodeUriComponent(t[n..]))
  }

  lemma OctetReadBack(b: Byte, rest: Text)
    ensures OctetAt(Percent(b) + rest) == Some(b)
  {
  }

  lemma {:induction false} OctetsReadBack(o: seq<Byte>, rest: Text)
    ensures OctetsAt(PercentAll(o) + rest, |o|) == Some(o)
  {
    if o == [] {
    } else {
      var t := PercentAll(o) + rest;
      assert t[3..] == PercentAll(o[1..]) + rest;
      OctetsReadBack(o[1..], rest);
      OctetReadBack(o[0], PercentAll(o[1..]) + rest);
      hide OctetAt, Percent;
      assert t == Percent(o[0]) + (PercentAll(o[1..]) + rest);
      assert [o[0]] + o[1..] == o;
    }
  }

  lemma {:induction false} PercentAllLength(o: seq<Byte>)
    ensures |PercentAll(o)| == 3 * |o|
  {
    if o == [] {
    } else {
      PercentAllLength(o[1..]);
    }
  }

  lemma CodeReadBack(c: int, rest: Text)
    requires Scalar(c)
    ensures var t := PercentAll(Octets(c)) + rest;
            t[0] == PERCENT && CodeAt(t) == Some((c, |PercentAll(Octets(c))|))
  {
    var o := Octets(c);
    OctetsRoundTrip(c);
    hide Octets, FromOctets, Announced;
    OctetsReadBack(o, rest);
    PercentAllLength(o);
    assert PercentAll(o)[..3] == Percent(o[0]);
  }

  /** Decoding undoes encoding, whatever comes after. */
  lemma {:induction false} DecodeEscaped(s: Text, rest: Text, kept: Kept)
    requires Paired(s) && !kept(PERCENT)
    ensures DecodeUriComponent(Escape(s, kept) + rest) == Prepend(s, DecodeUriComponent(rest))
    decreases |s|
  {
    if s == [] {
      assert Escape(s, kept) + rest == rest;
      PrependNothing(DecodeUriComponent(rest));
    } else {
      hide Octets, FromOctets, CodeAt, Paired;
      var c, later := FirstCode(s), s[Step(s)..];
      UnitsOfFirst(s);
      PairedTail(s);
      DecodeEscaped(later, rest, kept);
      var first := EscapeCode(c, kept);
      var t := first + (Escape(later, kept) + rest);
      assert Escape(s, kept) + rest == t;
      DecodeFirst(c, Escape(later, kept) + rest, kept);
      assert s[..Step(s)] + later == s;
      PrependTwice(Units(c), later, DecodeUriComponent(rest));
    }
  }

  lemma PrependNothing(rest: Option<Text>)
    ensures Prepend([], rest) == rest
  {
    if rest.Some? {
      assert [] + rest.value == rest.value;
    }
  }

  lemma PrependTwice(a: Text, b: Text, rest: Option<Text>)
    ensures Prepend(a, Prepend(b, rest)) == Prepend(a + b, rest)
  {
    if rest.Some? {
      assert a + (b + rest.value) == (a + b) + rest.value;
    }
  }

  lemma DecodeFirst(c: int, rest: Text, kept: Kept)
    requires Scalar(c) && !kept(PERCENT)
    ensures DecodeUriComponent(EscapeCode(c, kept) + rest) == Prepend(Units(c), DecodeUriComponent(rest))
  {
    var first := EscapeCode(c, kept);
    if c < 0x80 && kept(c) {
      assert ([c] + rest)[1..] == rest;
    } else {
      CodeReadBack(c, rest);
      hide CodeAt, Octets;
      assert (first + rest)[|first|..] == rest;
    }
  }

  /** The round trip: text the encoder accepts comes back from the decoder. */
  lemma RoundTrip(s: Text, kept: Kept)
    requires Paired(s) && !kept(PERCENT)
    ensures DecodeUriComponent(Escape(s, kept)) == Some(s)
  {
    DecodeEscaped(s, [], kept);
    assert Escape(s, kept) + [] == Escape(s, kept);
    assert s + [] == s;
  }

  /** Text without escapes decodes to itself, whatever comes after. */
  lemma {:induction false} DecodePlain(s: Text, rest: Text)
    requires PERCENT !in s
    ensures DecodeUriComponent(s + rest) == Prepend(s, DecodeUriComponent(rest))
  {
    if s == [] {
      assert s + rest == rest;
      PrependNothing(DecodeUriComponent(rest));
    } else {
      assert (s + rest)[1..] == s[1..] + rest;
      DecodePlain(s[1..], rest);
      PrependTwice([s[0]], s[1..], DecodeUriComponent(rest));
      assert [s[0]] + s[1..] == s;
    }
  }
}

/** Strings of UTF-16 code units, and their encoding in UTF-8. */
module Utf16 {
  import opened Wrappers
  import opened Bytes

  type Unit = u: int | 0 <= u < 0x10000

  type Text = seq<Unit>

  const NUL: Unit := 0
  const SPACE: Unit := 0x20
  const DOT: Unit := 0x2E
  const SLASH: Unit := 0x2F
  const QUERY: Unit := 0x3F
  const BACKSLASH: Unit := 0x5C
  const UNDERSCORE: Unit := 0x5F

  /** The names "." and "..". */
  predicate IsDots(s: Text) {
    s == [DOT] || s == [DOT, DOT]
  }

  // ----- surrogates -----

  predicate IsHigh(u: int) {
    0xD800 <= u <= 0xDBFF
  }

  predicate IsLow(u: int) {
    0xDC00 <= u <= 0xDFFF
  }

  predicate IsSurrogate(u: int) {
    IsHigh(u) || IsLow(u)
  }

  /** A surrogate without its partner beside it. */
  predicate LoneAt(s: Text, i: nat)
    requires i < |s|
  {
    || (IsHigh(s[i]) && !(i + 1 < |s| && IsLow(s[i + 1])))
    || (IsLow(s[i]) && !(i > 0 && IsHigh(s[i - 1])))
  }

  predicate Paired(s: Text) {
    forall i | 0 <= i < |s| :: !LoneAt(s, i)
  }

  predicate StartsWithPair(s: Text) {
    |s| >= 2 && IsHigh(s[0]) && IsLow(s[1])
  }

  /** How many code units the first character takes. */
  function Step(s: Text): (n: nat)
    requires s != []
    ensures 1 <= n <= |s|
  {
    if StartsWithPair(s) then 2 else 1
  }

  lemma PairedTail(s: Text)
    requires s != [] && Paired(s)
    ensures Paired(s[Step(s)..])
    ensures !StartsWithPair(s) ==> !IsSurrogate(s[0])
  {
    var t := s[Step(s)..];
    assert !LoneAt(s, 0);
    forall i | 0 <= i < |t| ensures !LoneAt(t, i) {
      assert !LoneAt(s, i + Step(s));
    }
  }

  lemma PairedConcat(a: Text, b: Text)
    requires Paired(a) && Paired(b)
    ensures Paired(a + b)
  {
    var s := a + b;
    forall i | 0 <= i < |s| ensures !LoneAt(s, i) {
      if i < |a| {
        assert !LoneAt(a, i);
      } else {
        assert !LoneAt(b, i - |a|);
      }
    }
  }

  lemma PairedFront(s: Text)
    requires s != [] && Paired(s) && !IsLow(s[|s| - 1])
    ensures Paired(s[..|s| - 1])
  {
    var t := s[..|s| - 1];
    forall i | 0 <= i < |t| ensures !LoneAt(t, i) {
      assert !LoneAt(s, i);
    }
  }

  /** Only the surrogates and their places matter. */
  lemma PairedAlike(a: Text, b: Text)
    requires Paired(a) && |a| == |b|
    requires forall i | 0 <= i < |a| :: IsSurrogate(a[i]) || IsSurrogate(b[i]) ==> a[i] == b[i]
    ensures Paired(b)
  {
    forall i | 0 <= i < |b| ensures !LoneAt(b, i) {
      assert !LoneAt(a, i);
    }
  }

  // ----- UTF-8, section 3 of RFC 3629 -----

  function CodePoint(high: int, low: int): int {
    0x10000 + (high - 0xD800) * 0x400 + (low - 0xDC00)
  }

  predicate Scalar(c: int) {
    0 <= c < 0x110000 && !IsSurrogate(c)
  }

  /** The octets of one code point; a lone surrogate is encoded like its neighbours, in three octets. */
  function Octets(c: int): (r: seq<Byte>)
    requires 0 <= c < 0x110000
    ensures 1 <= |r| <= 4
  {
    var c1 := c / 0x40;
    var c2 := c1 / 0x40;
    var c3 := c2 / 0x40;
    if c < 0x80 then [c]
    else if c < 0x800 then [0xC0 + c1, 0x80 + c % 0x40]
    else if c < 0x10000 then [0xE0 + c2, 0x80 + c1 % 0x40, 0x80 + c % 0x40]
    else [0xF0 + c3, 0x80 + c2 % 0x40, 0x80 + c1 % 0x40, 0x80 + c % 0x40]
  }

  /** The first character's code point. */
  function FirstCode(s: Text): (c: int)
    requires s != []
    ensures 0 <= c < 0x110000
    ensures StartsWithPair(s) <==> c >= 0x10000
  {
    if StartsWithPair(s) then CodePoint(s[0], s[1]) else s[0]
  }

  function Utf8(s: Text): seq<Byte> {
    if s == [] then [] else Octets(FirstCode(s)) + Utf8(s[Step(s)..])
  }

  /** The code units of a code point. */
  function Units(c: int): Text
    requires 0 <= c < 0x110000
  {
    if c < 0x10000 then [c] else [0xD800 + (c - 0x10000) / 0x400, 0xDC00 + (c - 0x10000) % 0x400]
  }

  lemma UnitsOfFirst(s: Text)
    requires s != []
    ensures Units(FirstCode(s)) == s[..Step(s)]
    ensures Paired(s) ==> Scalar(FirstCode(s))
  {
    if Paired(s) {
      PairedTail(s);
    }
  }

  /** How many octets a lead octet announces; 0 when it cannot lead. */
  function Announced(lead: int): nat {
    if 0 <= lead < 0x80 then 1
    else if 0xC0 <= lead < 0xE0 then 2
    else if 0xE0 <= lead < 0xF0 then 3
    else if 0xF0 <= lead < 0xF8 then 4
    else 0
  }

  predicate Follows(b: int) {
    0x80 <= b < 0xC0
  }

  /** Appends the six bits of a following octet. */
  function Shifted(c: int, b: int): int {
    c * 0x40 + (b - 0x80)
  }

  /** Reads back one code point; overlong forms, surrogates and values beyond the last plane are refused. */
  function FromOctets(o: seq<Byte>): (r: Option<int>)
    ensures r.Some? ==> Scalar(r.value)
  {
    if |o| == 1 && o[0] < 0x80 then Some(o[0])
    else if |o| == 2 && Announced(o[0]) == 2 && Follows(o[1]) then
      Checked(Shifted(Lead(o, 0xC0), o[1]), 0x80)
    else if |o| == 3 && Announced(o[0]) == 3 && Follows(o[1]) && Follows(o[2]) then
      Checked(Shifted(Shifted(Lead(o, 0xE0), o[1]), o[2]), 0x800)
    else if |o| == 4 && Announced(o[0]) == 4 && Follows(o[1]) && Follows(o[2]) && Follows(o[3]) then
      Checked(Shifted(Shifted(Shifted(Lead(o, 0xF0), o[1]), o[2]), o[3]), 0x10000)
    else None
  }

  function Lead(o: seq<Byte>, mark: int): int
    requires o != []
  {
    var b: int := o[0];
    b - mark
  }

  function Checked(c: int, least: int): (r: Option<int>)
    ensures r.Some? ==> r == Some(c) && Scalar(c)
  {
    if c >= least && Scalar(c) then Some(c) else None
  }

  lemma SixBits(c: nat)
    ensures Shifted(c / 0x40, 0x80 + c % 0x40) == c && Follows(0x80 + c % 0x40)
  {
  }

  /** Encoding one scalar value and reading it back; the lead octet announces exactly what follows. */
  lemma OctetsRoundTrip(c: int)
    requires Scalar(c)
    ensures FromOctets(Octets(c)) == Some(c)
    ensures Announced(Octets(c)[0]) == |Octets(c)|
    ensures c >= 0x80 ==> forall i | 0 <= i < |Octets(c)| :: Octets(c)[i] >= 0x80
  {
    SixBits(c);
    SixBits(c / 0x40);
    SixBits(c / 0x40 / 0x40);
    hide Shifted, Follows;
    var o := Octets(c);
    if c < 0x80 {
      assert o == [c];
    } else if c < 0x800 {
      assert |o| == 2;
    } else if c < 0x10000 {
      assert |o| == 3;
    } else {
      assert |o| == 4;
    }
  }
}

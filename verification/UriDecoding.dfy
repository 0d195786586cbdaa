/** What decoding accepts, and as what: the shortest escapes of scalar values and nothing else. */
module UriDecoding {
  import opened Wrappers
  import opened Bytes
  import opened Utf16
  import opened UriComponent

  // ----- octets -----

  lemma TwoOctets(a: Byte, b: Byte)
    requires FromOctets([a, b]).Some?
    ensures Octets(FromOctets([a, b]).value) == [a, b]
  {
    var c := (a - 0xC0) * 0x40 + (b - 0x80);
    assert FromOctets([a, b]) == Checked(c, 0x80);
    assert c / 0x40 == a - 0xC0 && c % 0x40 == b - 0x80;
  }

  lemma ThreeOctets(a: Byte, b: Byte, d: Byte)
    requires FromOctets([a, b, d]).Some?
    ensures Octets(FromOctets([a, b, d]).value) == [a, b, d]
  {
    var c1 := (a - 0xE0) * 0x40 + (b - 0x80);
    var c := c1 * 0x40 + (d - 0x80);
    assert FromOctets([a, b, d]) == Checked(c, 0x800);
    assert c / 0x40 == c1 && c % 0x40 == d - 0x80;
    assert c1 / 0x40 == a - 0xE0 && c1 % 0x40 == b - 0x80;
  }

  lemma FourOctets(a: Byte, b: Byte, d: Byte, e: Byte)
    requires FromOctets([a, b, d, e]).Some?
    ensures Octets(FromOctets([a, b, d, e]).value) == [a, b, d, e]
  {
    var c2 := (a - 0xF0) * 0x40 + (b - 0x80);
    var c1 := c2 * 0x40 + (d - 0x80);
    var c := c1 * 0x40 + (e - 0x80);
    assert FromOctets([a, b, d, e]) == Checked(c, 0x10000);
    assert c / 0x40 == c1 && c % 0x40 == e - 0x80;
    assert c1 / 0x40 == c2 && c1 % 0x40 == d - 0x80;
    assert c2 / 0x40 == a - 0xF0 && c2 % 0x40 == b - 0x80;
  }

  /** Octets are read back only if they are the ones the code point is encoded as. */
  lemma OctetsUnique(o: seq<Byte>)
    requires FromOctets(o).Some?
    ensures Octets(FromOctets(o).value) == o
  {
    if |o| == 1 {
      assert o == [o[0]];
    } else if |o| == 2 {
      assert o == [o[0], o[1]];
      TwoOctets(o[0], o[1]);
    } else if |o| == 3 {
      assert o == [o[0], o[1], o[2]];
      ThreeOctets(o[0], o[1], o[2]);
    } else {
      assert o == [o[0], o[1], o[2], o[3]];
      FourOctets(o[0], o[1], o[2], o[3]);
    }
  }

  // ----- escapes -----

  /** The text begins with the escapes of these octets, with hex digits of either case. */
  ghost predicate BeginsWithEscapes(t: Text, o: seq<Byte>) {
    && 3 * |o| <= |t|
    && forall i | 0 <= i < |o| ::
         t[3 * i] == PERCENT && HexValue(t[3 * i + 1]) == Some(o[i] / 16) && HexValue(t[3 * i + 2]) == Some(o[i] % 16)
  }

  lemma FirstEscape(t: Text, o: seq<Byte>)
    requires o != []
    ensures BeginsWithEscapes(t, o) <==> OctetAt(t) == Some(o[0]) && BeginsWithEscapes(t[3..], o[1..])
  {
    if |t| >= 3 {
      var rest := t[3..];
      assert forall i | 0 <= i < |rest| :: rest[i] == t[i + 3];
      if BeginsWithEscapes(t, o) {
        forall i | 0 <= i < |o| - 1
          ensures rest[3 * i] == PERCENT
          ensures HexValue(rest[3 * i + 1]) == Some(o[1..][i] / 16) && HexValue(rest[3 * i + 2]) == Some(o[1..][i] % 16)
        {
          assert t[3 * (i + 1)] == rest[3 * i];
        }
      }
      if OctetAt(t) == Some(o[0]) && BeginsWithEscapes(rest, o[1..]) {
        forall i | 1 <= i < |o|
          ensures t[3 * i] == PERCENT
          ensures HexValue(t[3 * i + 1]) == Some(o[i] / 16) && HexValue(t[3 * i + 2]) == Some(o[i] % 16)
        {
          assert t[3 * i] == rest[3 * (i - 1)] && o[1..][i - 1] == o[i];
        }
      }
    }
  }

  lemma {:induction false} OctetsAtExact(t: Text, o: seq<Byte>)
    ensures OctetsAt(t, |o|) == Some(o) <==> BeginsWithEscapes(t, o)
  {
    if o == [] {
    } else {
      FirstEscape(t, o);
      if OctetAt(t).Some? {
        OctetsAtExact(t[3..], o[1..]);
        assert o == [o[0]] + o[1..];
        hide BeginsWithEscapes;
        if OctetsAt(t, |o|) == Some(o) {
          var b, rest := OctetAt(t).value, OctetsAt(t[3..], |o| - 1).value;
          assert [b] + rest == o;
          assert b == o[0] && rest == o[1..];
        }
      }
    }
  }

  /** The code point escaped at the front of a text, exactly. */
  lemma CodeAtExact(t: Text, c: int)
    requires Scalar(c)
    ensures CodeAt(t) == Some((c, 3 * |Octets(c)|)) <==> BeginsWithEscapes(t, Octets(c))
  {
    var o := Octets(c);
    OctetsRoundTrip(c);
    OctetsAtExact(t, o);
    FirstEscape(t, o);
    hide Octets, FromOctets, BeginsWithEscapes, OctetAt, OctetsAt, Announced;
    if CodeAt(t) == Some((c, 3 * |o|)) {
      var n := Announced(OctetAt(t).value);
      OctetsUnique(OctetsAt(t, n).value);
    }
  }

  lemma CodeAtIsScalar(t: Text)
    requires CodeAt(t).Some?
    ensures var (c, n) := CodeAt(t).value; Scalar(c) && n == 3 * |Octets(c)|
  {
    var o := OctetsAt(t, Announced(OctetAt(t).value)).value;
    OctetsUnique(o);
    hide Octets, OctetsAt, Announced;
  }

  // ----- texts -----

  /** Every character but the percent sign stands for itself, and every escape belongs to those of a scalar value. */
  ghost predicate Means(t: Text, d: Text)
    decreases |t|
  {
    if t == [] then d == []
    else if t[0] != PERCENT then d != [] && d[0] == t[0] && Means(t[1..], d[1..])
    else exists c :: Escapes(t, d, c) && Means(t[3 * |Octets(c)|..], d[|Units(c)|..])
  }

  ghost predicate Escapes(t: Text, d: Text, c: int) {
    Scalar(c) && BeginsWithEscapes(t, Octets(c)) && Units(c) <= d
  }

  /** A text decodes exactly when it is made of these, and then to what they mean. */
  lemma {:induction false} DecodeExact(t: Text, d: Text)
    ensures DecodeUriComponent(t) == Some(d) <==> Means(t, d)
    decreases |t|
  {
    if t == [] {
    } else if t[0] != PERCENT {
      if d != [] {
        DecodeExact(t[1..], d[1..]);
        OneFront(t[0], d, DecodeUriComponent(t[1..]));
      }
    } else {
      EscapedFront(t, d);
      hide CodeAt, Escapes, Units, Octets;
      if DecodeUriComponent(t) == Some(d) {
        var c := CodeAt(t).value.0;
        DecodeExact(t[3 * |Octets(c)|..], d[|Units(c)|..]);
      }
      forall c | Escapes(t, d, c) && Means(t[3 * |Octets(c)|..], d[|Units(c)|..])
        ensures DecodeUriComponent(t) == Some(d)
      {
        OneCode(t, d, c);
        DecodeExact(t[3 * |Octets(c)|..], d[|Units(c)|..]);
      }
    }
  }

  /** What an escaped text that decodes begins with. */
  lemma EscapedFront(t: Text, d: Text)
    requires t != [] && t[0] == PERCENT
    ensures DecodeUriComponent(t) == Some(d) ==>
              && CodeAt(t).Some?
              && var c := CodeAt(t).value.0;
                 Escapes(t, d, c) && DecodeUriComponent(t[3 * |Octets(c)|..]) == Some(d[|Units(c)|..])
  {
    hide CodeAt, BeginsWithEscapes, Units, Octets;
    if DecodeUriComponent(t) == Some(d) {
      var (c, n) := CodeAt(t).value;
      CodeAtIsScalar(t);
      CodeAtExact(t, c);
      var rest := DecodeUriComponent(t[n..]).value;
      assert d == Units(c) + rest && d[|Units(c)|..] == rest;
    }
  }

  lemma OneCode(t: Text, d: Text, c: int)
    requires t != [] && t[0] == PERCENT && Escapes(t, d, c)
    ensures DecodeUriComponent(t) == Some(d) <==> DecodeUriComponent(t[3 * |Octets(c)|..]) == Some(d[|Units(c)|..])
  {
    CodeAtExact(t, c);
    hide CodeAt, BeginsWithEscapes, Units, Octets;
    var rest := DecodeUriComponent(t[3 * |Octets(c)|..]);
    assert DecodeUriComponent(t) == Prepend(Units(c), rest);
    assert d == Units(c) + d[|Units(c)|..];
    if rest.Some? {
      assert (Units(c) + rest.value)[|Units(c)|..] == rest.value;
    }
  }

  lemma OneFront(u: Unit, d: Text, rest: Option<Text>)
    requires d != []
    ensures Prepend([u], rest) == Some(d) <==> d[0] == u && rest == Some(d[1..])
  {
    assert d == [d[0]] + d[1..];
    if rest.Some? {
      assert ([u] + rest.value)[1..] == rest.value;
    }
  }

  // ----- the character sets -----

  /** The characters that encoding leaves alone, in letters. */
  lemma KeptExact(u: int)
    ensures Unreserved(u) <==>
              || 'A' as int <= u <= 'Z' as int || 'a' as int <= u <= 'z' as int || '0' as int <= u <= '9' as int
              || u == '-' as int || u == '.' as int || u == '_' as int || u == '~' as int
    ensures UriKept(u) <==>
              || Unreserved(u) || u == '!' as int || u == '\'' as int || u == '(' as int || u == ')' as int
              || u == '*' as int
    ensures PERCENT == '%' as int
  {
  }

  /** Hex digits of either case are read, and nothing else. */
  lemma HexDigitsExact(u: int)
    ensures HexValue(u) ==
            if '0' as int <= u <= '9' as int then Some(u - '0' as int)
            else if 'A' as int <= u <= 'F' as int then Some(10 + u - 'A' as int)
            else if 'a' as int <= u <= 'f' as int then Some(10 + u - 'a' as int)
            else None
  {
  }
}

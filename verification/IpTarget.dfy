/**
 * IP and CIDR targets: masking, folding of IPv4-mapped addresses, the normal form and the matcher.
 * Reading and printing address text is the address library's; an address here is its bytes.
 */
module IpTarget {
  import opened Wrappers

  datatype Family = V4 | V6

  datatype Address = Address(family: Family, bytes: seq<nat>)

  /** A literal with an optional prefix length after a slash. */
  datatype Input = Input(address: Address, prefix: Option<nat>)

  datatype Block = Block(family: Family, bytes: seq<nat>, prefix: nat)

  function Width(f: Family): nat {
    match f case V4 => 32 case V6 => 128
  }

  predicate AreBytes(s: seq<nat>) {
    forall b | b in s :: b < 256
  }

  predicate ValidAddress(a: Address) {
    8 * |a.bytes| == Width(a.family) && AreBytes(a.bytes)
  }

  // ----- masking -----

  function Pow2(n: nat): (p: nat)
    ensures p > 0
  {
    if n == 0 then 1 else 2 * Pow2(n - 1)
  }

  /** Bitwise and. */
  function And(x: nat, y: nat): nat {
    if x == 0 || y == 0 then 0 else 2 * And(x / 2, y / 2) + (if x % 2 == 1 && y % 2 == 1 then 1 else 0)
  }

  function MaskByte(b: nat, bits: nat): nat
    requires bits <= 8
  {
    PowUpTo(8, 8 - bits);
    And(b, 256 - Pow2(8 - bits))
  }

  function KeptBits(prefix: nat, index: nat): (bits: nat)
    ensures bits <= 8
  {
    if prefix <= 8 * index then 0 else if prefix - 8 * index > 8 then 8 else prefix - 8 * index
  }

  function Masked(bytes: seq<nat>, prefix: nat): (r: seq<nat>)
    ensures |r| == |bytes|
  {
    seq(|bytes|, i requires 0 <= i < |bytes| => MaskByte(bytes[i], KeptBits(prefix, i)))
  }

  lemma {:induction false} PowUpTo(n: nat, k: nat)
    requires k <= n
    ensures Pow2(n) == Pow2(k) * Pow2(n - k)
  {
    if k < n {
      PowUpTo(n - 1, k);
    }
  }

  lemma {:induction false} PowIncreases(a: nat, b: nat)
    requires a < b
    ensures 2 * Pow2(a) <= Pow2(b)
  {
    if a < b - 1 {
      PowIncreases(a, b - 1);
    }
  }

  function RoundDown(x: nat, m: nat): (r: nat)
    requires m > 0
    ensures r <= x
  {
    x - x % m
  }

  /** Anding with a run of ones above k zeros rounds down to a multiple of 2^k. */
  lemma {:induction false} AndRounds(x: nat, n: nat, k: nat)
    requires k <= n && x < Pow2(n)
    ensures Pow2(k) <= Pow2(n)
    ensures And(x, Pow2(n) - Pow2(k)) == RoundDown(x, Pow2(k))
    decreases n
  {
    if k == n {
      SmallModulus(x, Pow2(k));
    } else {
      PowIncreases(k, n);
      if k == 0 {
        AndOnes(x, n);
      } else {
        AndRounds(x / 2, n - 1, k - 1);
        AndRoundsOnce(x, Pow2(k - 1), Pow2(n - 1));
      }
    }
  }

  lemma SmallModulus(x: nat, m: nat)
    requires x < m
    ensures x % m == x
  {
  }

  lemma RoundDownSmall(x: nat, m: nat)
    requires x < m
    ensures RoundDown(x, m) == 0
  {
  }

  lemma RoundDownHalf(x: nat, m: nat)
    requires m > 0
    ensures RoundDown(x, 2 * m) == 2 * RoundDown(x / 2, m)
  {
    HalfModulus(x, m);
  }

  lemma AndRoundsOnce(x: nat, m: nat, top: nat)
    requires 0 < m <= top && And(x / 2, top - m) == RoundDown(x / 2, m)
    ensures And(x, 2 * top - 2 * m) == RoundDown(x, 2 * m)
  {
    RoundDownHalf(x, m);
    AndOfEven(x, top - m);
    assert 2 * top - 2 * m == 2 * (top - m);
  }

  lemma AndOfEven(x: nat, y: nat)
    ensures And(x, 2 * y) == 2 * And(x / 2, y)
  {
  }

  lemma {:induction false} AndOnes(x: nat, n: nat)
    requires x < Pow2(n)
    ensures And(x, Pow2(n) - 1) == x
  {
    if x != 0 {
      assert Pow2(n) == 2 * Pow2(n - 1) && (Pow2(n) - 1) / 2 == Pow2(n - 1) - 1 && (Pow2(n) - 1) % 2 == 1;
      AndOnes(x / 2, n - 1);
    }
  }

  lemma HalfModulus(x: nat, m: nat)
    requires m > 0
    ensures x % (2 * m) == 2 * ((x / 2) % m) + x % 2
  {
    var h := x / 2;
    var q, r := h / m, h % m;
    assert h == q * m + r;
    assert x == q * (2 * m) + (2 * r + x % 2);
    QuotientUnique(x, 2 * m, q, 2 * r + x % 2);
  }

  lemma Monotone(a: nat, b: nat, m: nat)
    requires a <= b
    ensures a * m <= b * m
  {
  }

  lemma Distribute(x: nat, y: nat, m: nat)
    ensures (x + y) * m == x * m + y * m
  {
  }

  lemma Rearrange(b: nat, m: nat, f: nat)
    ensures b * (m * f) == (b * f) * m == (b * m) * f
  {
  }

  lemma QuotientUnique(x: nat, m: nat, q: nat, r: nat)
    requires m > 0 && r < m && x == q * m + r
    ensures x / m == q && x % m == r
  {
    var q' := x / m;
    Distribute(q, 1, m);
    Distribute(q', 1, m);
    if q' > q {
      Monotone(q + 1, q', m);
    } else if q' < q {
      Monotone(q' + 1, q, m);
    }
  }

  /** One masked byte is the byte rounded down. */
  lemma MaskByteRounds(b: nat, bits: nat)
    requires b < 256 && bits <= 8
    ensures MaskByte(b, bits) == RoundDown(b, Pow2(8 - bits))
  {
    assert Pow2(8) == 256;
    hide Pow2, And, RoundDown;
    AndRounds(b, 8, 8 - bits);
  }

  // ----- addresses as integers -----

  function Joined(high: nat, lowBits: nat, low: nat): nat {
    high * Pow2(lowBits) + low
  }

  function Value(bytes: seq<nat>): nat {
    if bytes == [] then 0 else Joined(bytes[0], 8 * (|bytes| - 1), Value(bytes[1..]))
  }

  lemma {:induction false} ValueBound(bytes: seq<nat>)
    requires AreBytes(bytes)
    ensures Value(bytes) < Pow2(8 * |bytes|)
  {
    if bytes == [] {
    } else {
      assert bytes[0] in bytes && forall b | b in bytes[1..] :: b in bytes;
      ValueBound(bytes[1..]);
      PowUpTo(8 * |bytes|, 8);
      assert Pow2(8) == 256;
      Monotone(bytes[0], 255, Pow2(8 * |bytes| - 8));
    }
  }

  lemma {:induction false} ValueInjective(a: seq<nat>, b: seq<nat>)
    requires AreBytes(a) && AreBytes(b) && |a| == |b| && Value(a) == Value(b)
    ensures a == b
  {
    if a == [] {
    } else {
      assert forall x | x in a[1..] :: x in a;
      assert forall x | x in b[1..] :: x in b;
      ValueBound(a[1..]);
      ValueBound(b[1..]);
      var q := Pow2(8 * (|a| - 1));
      QuotientUnique(Value(a), q, a[0], Value(a[1..]));
      QuotientUnique(Value(b), q, b[0], Value(b[1..]));
      ValueInjective(a[1..], b[1..]);
      assert a == [a[0]] + a[1..] && b == [b[0]] + b[1..];
    }
  }

  lemma MaskedTail(bytes: seq<nat>, prefix: nat)
    requires bytes != []
    ensures Masked(bytes, prefix)[1..] == Masked(bytes[1..], if prefix >= 8 then prefix - 8 else 0)
    ensures Masked(bytes, prefix)[0] == MaskByte(bytes[0], if prefix >= 8 then 8 else prefix)
  {
    var left := if prefix >= 8 then prefix - 8 else 0;
    forall i | 0 <= i < |bytes| - 1
      ensures Masked(bytes, prefix)[1..][i] == Masked(bytes[1..], left)[i]
    {
      assert KeptBits(prefix, i + 1) == KeptBits(left, i) && bytes[1..][i] == bytes[i + 1];
    }
  }

  /** A multiple of a multiple leaves the remainder alone. */
  lemma RemainderOfSum(b: nat, m: nat, f: nat, rest: nat)
    requires m > 0
    ensures (b * (m * f) + rest) % m == rest % m
  {
    Rearrange(b, m, f);
    Distribute(b * f, rest / m, m);
    QuotientUnique(b * (m * f) + rest, m, b * f + rest / m, rest % m);
  }

  /** A remainder by d * q splits into the remainder of the high part and the whole low part. */
  lemma RemainderOfHigh(b: nat, q: nat, rest: nat, d: nat)
    requires d > 0 && rest < q
    ensures d * q > 0 && (b * q + rest) % (d * q) == (b % d) * q + rest
    ensures b * q - (b % d) * q == (b - b % d) * q
  {
    var h, r := b / d, b % d;
    Distribute(h * d, r, q);
    Rearrange(h, d, q);
    Distribute(r, 1, q);
    Monotone(r + 1, d, q);
    Distribute(b - r, r, q);
    QuotientUnique(b * q + rest, d * q, h, r * q + rest);
  }

  lemma KeptByteRounds(byte: nat, rest: nat, n: nat, prefix: nat)
    requires n > 0 && 8 <= prefix <= 8 * n
    ensures RoundDown(Joined(byte, 8 * (n - 1), rest), Pow2(8 * n - prefix)) ==
            Joined(byte, 8 * (n - 1), RoundDown(rest, Pow2(8 * n - prefix)))
  {
    PowUpTo(8 * (n - 1), 8 * n - prefix);
    RemainderOfSum(byte, Pow2(8 * n - prefix), Pow2(prefix - 8), rest);
  }

  lemma CutByteRounds(byte: nat, rest: nat, n: nat, prefix: nat)
    requires n > 0 && prefix < 8 && rest < Pow2(8 * (n - 1))
    ensures RoundDown(Joined(byte, 8 * (n - 1), rest), Pow2(8 * n - prefix)) ==
            Joined(RoundDown(byte, Pow2(8 - prefix)), 8 * (n - 1), 0)
  {
    PowUpTo(8 * n - prefix, 8 - prefix);
    RemainderOfHigh(byte, Pow2(8 * (n - 1)), rest, Pow2(8 - prefix));
  }

  lemma KeepsByte(b: nat)
    requires b < 256
    ensures MaskByte(b, 8) == b
  {
    MaskByteRounds(b, 8);
    assert Pow2(8 - 8) == 1;
  }

  lemma ValueOfMasked(bytes: seq<nat>, prefix: nat)
    requires bytes != []
    ensures Value(Masked(bytes, prefix)) ==
            Joined(MaskByte(bytes[0], if prefix >= 8 then 8 else prefix), 8 * (|bytes| - 1),
                   Value(Masked(bytes[1..], if prefix >= 8 then prefix - 8 else 0)))
  {
    MaskedTail(bytes, prefix);
  }

  lemma KeepFirstByte(bytes: seq<nat>, prefix: nat)
    requires AreBytes(bytes) && bytes != [] && 8 <= prefix <= 8 * |bytes|
    requires Value(Masked(bytes[1..], prefix - 8)) == RoundDown(Value(bytes[1..]), Pow2(8 * |bytes| - prefix))
    ensures Value(Masked(bytes, prefix)) == RoundDown(Value(bytes), Pow2(8 * |bytes| - prefix))
  {
    assert bytes[0] in bytes;
    ValueOfMasked(bytes, prefix);
    KeepsByte(bytes[0]);
    KeptByteRounds(bytes[0], Value(bytes[1..]), |bytes|, prefix);
  }

  lemma MaskedFirst(bytes: seq<nat>, prefix: nat)
    requires AreBytes(bytes) && bytes != [] && prefix < 8
    requires Value(Masked(bytes[1..], 0)) == 0
    ensures Value(Masked(bytes, prefix)) == Joined(RoundDown(bytes[0], Pow2(8 - prefix)), 8 * (|bytes| - 1), 0)
  {
    assert bytes[0] in bytes;
    MaskByteRounds(bytes[0], prefix);
    ValueOfMasked(bytes, prefix);
  }

  lemma CutFirstByte(bytes: seq<nat>, prefix: nat)
    requires AreBytes(bytes) && bytes != [] && prefix < 8
    requires Value(Masked(bytes[1..], 0)) == 0
    ensures Value(Masked(bytes, prefix)) == RoundDown(Value(bytes), Pow2(8 * |bytes| - prefix))
  {
    hide Joined, RoundDown, Masked, Pow2;
    var rest := bytes[1..];
    assert forall b | b in rest :: b in bytes;
    assert Value(rest) < Pow2(8 * (|bytes| - 1)) by { ValueBound(rest); }
    CutByteRounds(bytes[0], Value(rest), |bytes|, prefix);
    MaskedFirst(bytes, prefix);
  }

  /** Masking every byte rounds the whole address down to a multiple of 2^(width - prefix). */
  lemma {:induction false} MaskedRounds(bytes: seq<nat>, prefix: nat)
    requires AreBytes(bytes) && prefix <= 8 * |bytes|
    ensures Value(Masked(bytes, prefix)) == RoundDown(Value(bytes), Pow2(8 * |bytes| - prefix))
  {
    if bytes == [] {
      assert Value(bytes) == 0 && Masked(bytes, prefix) == [];
      RoundDownSmall(0, Pow2(0));
    } else {
      var rest := bytes[1..];
      assert forall b | b in rest :: b in bytes;
      if prefix >= 8 {
        MaskedRounds(rest, prefix - 8);
        assert 8 * |rest| - (prefix - 8) == 8 * |bytes| - prefix;
        KeepFirstByte(bytes, prefix);
      } else {
        MaskedRounds(rest, 0);
        ValueBound(rest);
        RoundDownSmall(Value(rest), Pow2(8 * |rest|));
        CutFirstByte(bytes, prefix);
      }
    }
  }

  lemma MaskedAreBytes(bytes: seq<nat>, prefix: nat)
    requires AreBytes(bytes)
    ensures AreBytes(Masked(bytes, prefix))
    ensures forall i | 0 <= i < |bytes| :: Masked(bytes, prefix)[i] <= bytes[i]
  {
    forall i | 0 <= i < |bytes|
      ensures Masked(bytes, prefix)[i] <= bytes[i] < 256
    {
      assert bytes[i] in bytes;
      MaskByteRounds(bytes[i], KeptBits(prefix, i));
    }
  }

  // ----- the normal form -----

  predicate IsMapped(a: Address)
    requires ValidAddress(a)
  {
    a.family == V6 && (forall i | 0 <= i < 10 :: a.bytes[i] == 0) && a.bytes[10] == 255 && a.bytes[11] == 255
  }

  function Normalize(input: Input): Result<Block, ()>
    requires ValidAddress(input.address)
  {
    var a := input.address;
    var prefix := if input.prefix.Some? then input.prefix.value else Width(a.family);
    if prefix > Width(a.family) then Failure(())
    else if IsMapped(a) then
      if prefix < 96 then Failure(()) else Success(Block(V4, Masked(a.bytes[12..], prefix - 96), prefix - 96))
    else Success(Block(a.family, Masked(a.bytes, prefix), prefix))
  }

  /** The normalisation as it runs, folding a mapped address before it masks. */
  method NormalizeIpTarget(input: Input) returns (r: Result<Block, ()>)
    requires ValidAddress(input.address)
    ensures r == Normalize(input)
  {
    var address := input.address;
    var width := Width(address.family);
    var prefix := width;
    if input.prefix.Some? {
      prefix := input.prefix.value;
      if prefix > width {
        return Failure(());
      }
    }
    if IsMapped(address) {
      if prefix < 96 {
        return Failure(());
      }
      address := Address(V4, address.bytes[12..]);
      prefix := prefix - 96;
      width := 32;
    }
    return Success(Block(address.family, Masked(address.bytes, prefix), prefix));
  }

  /** What the printed block reads back as: the prefix is shown unless it is the full width. */
  function Printed(b: Block): Input {
    Input(Address(b.family, b.bytes), if b.prefix == Width(b.family) then None else Some(b.prefix))
  }

  /** Masking an IPv6 address that is not mapped never yields a mapped one. */
  lemma MaskingKeepsUnmapped(a: Address, prefix: nat)
    requires ValidAddress(a) && a.family == V6 && !IsMapped(a) && prefix <= 128
    ensures ValidAddress(Address(V6, Masked(a.bytes, prefix)))
    ensures !IsMapped(Address(V6, Masked(a.bytes, prefix)))
  {
    var m := Masked(a.bytes, prefix);
    MaskedAreBytes(a.bytes, prefix);
    assert forall i | 0 <= i < 16 :: a.bytes[i] in a.bytes;
    if m[10] == 255 && m[11] == 255 {
      FullOnesKeepAll(a.bytes[11], KeptBits(prefix, 11));
      forall i | 0 <= i < 10
        ensures m[i] == a.bytes[i]
      {
        KeepsByte(a.bytes[i]);
      }
    }
  }

  /** A byte that is all ones after masking was not cut at all. */
  lemma FullOnesKeepAll(b: nat, bits: nat)
    requires b < 256 && bits <= 8 && MaskByte(b, bits) == 255
    ensures bits == 8 && b == 255
  {
    MaskByteRounds(b, bits);
    if bits < 8 {
      PowUpTo(8 - bits, 1);
      assert Pow2(1) == 2;
      EvenMultiple(b, Pow2(8 - bits - 1));
    }
  }

  lemma EvenMultiple(x: nat, m: nat)
    requires m > 0
    ensures RoundDown(x, 2 * m) % 2 == 0
  {
    RoundDownHalf(x, m);
  }

  lemma NormalizeIsValid(input: Input)
    requires ValidAddress(input.address) && Normalize(input).Success?
    ensures var b := Normalize(input).value;
            && ValidAddress(Address(b.family, b.bytes)) && b.prefix <= Width(b.family)
            && !IsMapped(Address(b.family, b.bytes))
  {
    var a := input.address;
    if IsMapped(a) {
      assert forall b | b in a.bytes[12..] :: b in a.bytes;
      MaskedAreBytes(a.bytes[12..], Normalize(input).value.prefix);
    } else {
      MaskedAreBytes(a.bytes, Normalize(input).value.prefix);
      if a.family == V6 {
        MaskingKeepsUnmapped(a, Normalize(input).value.prefix);
      }
    }
  }

  lemma RoundDownTwice(x: nat, m: nat)
    requires m > 0
    ensures RoundDown(RoundDown(x, m), m) == RoundDown(x, m)
  {
    QuotientUnique(RoundDown(x, m), m, x / m, 0);
  }

  lemma MaskedTwice(bytes: seq<nat>, prefix: nat)
    requires AreBytes(bytes) && prefix <= 8 * |bytes|
    ensures Masked(Masked(bytes, prefix), prefix) == Masked(bytes, prefix)
  {
    var m := Masked(bytes, prefix);
    MaskedAreBytes(bytes, prefix);
    MaskedAreBytes(m, prefix);
    MaskedRounds(bytes, prefix);
    MaskedRounds(m, prefix);
    RoundDownTwice(Value(bytes), Pow2(8 * |bytes| - prefix));
    ValueInjective(Masked(m, prefix), m);
  }

  /** Normalising is idempotent on what it prints. */
  lemma NormalizeIdempotent(input: Input)
    requires ValidAddress(input.address) && Normalize(input).Success?
    ensures var b := Normalize(input).value;
            ValidAddress(Printed(b).address) && Normalize(Printed(b)) == Success(b)
  {
    NormalizeIsValid(input);
    var a := input.address;
    if IsMapped(a) {
      assert forall b | b in a.bytes[12..] :: b in a.bytes;
      MaskedTwice(a.bytes[12..], Normalize(input).value.prefix);
    } else {
      MaskedTwice(a.bytes, Normalize(input).value.prefix);
    }
  }

  // ----- blocks as sets of addresses -----

  /** The family and the integer an accepted address stands for, mapped ones folded to IPv4. */
  function Folded(a: Address): Address
    requires ValidAddress(a)
  {
    if IsMapped(a) then Address(V4, a.bytes[12..]) else a
  }

  /** How many low bits an accepted input leaves open. */
  function OpenBits(input: Input): nat
    requires ValidAddress(input.address) && Normalize(input).Success?
  {
    Width(input.address.family) - if input.prefix.Some? then input.prefix.value else Width(input.address.family)
  }

  /** Membership in the block of an input, by comparing the integers above the open bits. */
  ghost predicate Denotes(input: Input, f: Family, v: nat)
    requires ValidAddress(input.address) && Normalize(input).Success?
  {
    var a := Folded(input.address);
    f == a.family && v < Pow2(Width(f)) && v / Pow2(OpenBits(input)) == Value(a.bytes) / Pow2(OpenBits(input))
  }

  lemma FoldedIsValid(a: Address)
    requires ValidAddress(a)
    ensures ValidAddress(Folded(a))
  {
    if IsMapped(a) {
      assert forall b | b in a.bytes[12..] :: b in a.bytes;
    }
  }

  /** The normal form spells out the block: its lowest address and its size. */
  lemma NormalFormOfBlock(input: Input)
    requires ValidAddress(input.address) && Normalize(input).Success?
    ensures var b, a := Normalize(input).value, Folded(input.address);
            && b.family == a.family && Width(b.family) - b.prefix == OpenBits(input)
            && Value(b.bytes) == RoundDown(Value(a.bytes), Pow2(OpenBits(input)))
            && OpenBits(input) <= Width(a.family) && Value(a.bytes) < Pow2(Width(a.family))
  {
    hide Joined, RoundDown, Masked, Pow2, Value;
    var a := Folded(input.address);
    FoldedIsValid(input.address);
    ValueBound(a.bytes);
    MaskedRounds(a.bytes, Normalize(input).value.prefix);
  }

  /** A block is the interval from its base up to base + 2^open. */
  lemma BlockIsInterval(v: nat, x: nat, m: nat)
    requires m > 0
    ensures v / m == x / m <==> RoundDown(x, m) <= v < RoundDown(x, m) + m
  {
    var base := (x / m) * m;
    assert base == RoundDown(x, m);
    assert v == (v / m) * m + v % m;
    if base <= v < base + m {
      QuotientUnique(v, m, x / m, v - base);
    }
  }

  lemma QuotientBelow(x: nat, m: nat, f: nat)
    requires m > 0 && x < m * f
    ensures x / m < f && RoundDown(x, m) + m <= m * f
  {
    var q := x / m;
    if q >= f {
      Monotone(f, q, m);
    } else {
      Monotone(q + 1, f, m);
      Distribute(q, 1, m);
    }
  }

  lemma BlockFits(x: nat, k: nat, n: nat)
    requires k <= n && x < Pow2(n)
    ensures RoundDown(x, Pow2(k)) + Pow2(k) <= Pow2(n)
  {
    PowUpTo(n, k);
    QuotientBelow(x, Pow2(k), Pow2(n - k));
  }

  lemma PowInjective(a: nat, b: nat)
    requires Pow2(a) == Pow2(b)
    ensures a == b
  {
    if a < b {
      PowIncreases(a, b);
    } else if b < a {
      PowIncreases(b, a);
    }
  }

  ghost predicate SameBlock(x: Input, y: Input)
    requires ValidAddress(x.address) && Normalize(x).Success? && ValidAddress(y.address) && Normalize(y).Success?
  {
    forall f, v: nat :: Denotes(x, f, v) <==> Denotes(y, f, v)
  }

  lemma DenotesInterval(input: Input, f: Family, v: nat)
    requires ValidAddress(input.address) && Normalize(input).Success?
    ensures var b := Normalize(input).value;
            Denotes(input, f, v) <==> f == b.family && Value(b.bytes) <= v < Value(b.bytes) + Pow2(OpenBits(input))
  {
    NormalFormOfBlock(input);
    var a := Folded(input.address);
    BlockIsInterval(v, Value(a.bytes), Pow2(OpenBits(input)));
    BlockFits(Value(a.bytes), OpenBits(input), Width(a.family));
  }

  /** Two accepted inputs normalise alike exactly when they denote the same block of one family. */
  lemma NormalFormExact(x: Input, y: Input)
    requires ValidAddress(x.address) && Normalize(x).Success? && ValidAddress(y.address) && Normalize(y).Success?
    ensures Normalize(x) == Normalize(y) <==> SameBlock(x, y)
  {
    var b, d := Normalize(x).value, Normalize(y).value;
    NormalizeIsValid(x);
    NormalizeIsValid(y);
    NormalFormOfBlock(x);
    NormalFormOfBlock(y);
    hide Denotes;
    forall f, v: nat
      ensures Denotes(x, f, v) <==> f == b.family && Value(b.bytes) <= v < Value(b.bytes) + Pow2(OpenBits(x))
      ensures Denotes(y, f, v) <==> f == d.family && Value(d.bytes) <= v < Value(d.bytes) + Pow2(OpenBits(y))
    {
      DenotesInterval(x, f, v);
      DenotesInterval(y, f, v);
    }
    if SameBlock(x, y) {
      assert Denotes(x, b.family, Value(b.bytes)) && Denotes(y, d.family, Value(d.bytes));
      assert Denotes(x, b.family, Value(b.bytes) + Pow2(OpenBits(x)) - 1);
      assert Denotes(y, d.family, Value(d.bytes) + Pow2(OpenBits(y)) - 1);
      PowInjective(OpenBits(x), OpenBits(y));
      ValueInjective(b.bytes, d.bytes);
    }
  }

  // ----- the matcher -----

  /** Comparison of the leading bits, byte by byte, as the address library does it. */
  predicate PrefixMatch(a: seq<nat>, b: seq<nat>, prefix: nat)
    requires |a| == |b| && prefix <= 8 * |a|
  {
    prefix == 0 ||
    (var shift := if prefix < 8 then 8 - prefix else 0;
     && a[0] / Pow2(shift) == b[0] / Pow2(shift)
     && PrefixMatch(a[1..], b[1..], if prefix < 8 then 0 else prefix - 8))
  }

  /** The compiled target applied to a client: never to a block, always within one family. */
  predicate Matches(target: Block, client: Input)
    requires ValidAddress(Address(target.family, target.bytes)) && target.prefix <= Width(target.family)
    requires ValidAddress(client.address)
  {
    var c := Normalize(client);
    && c.Success? && c.value.prefix == Width(c.value.family)
    && c.value.family == target.family
    && PrefixMatch(c.value.bytes, target.bytes, target.prefix)
  }

  lemma QuotientOfHigh(b: nat, d: nat, q: nat, rest: nat)
    requires d > 0 && rest < q
    ensures d * q > 0 && (b * q + rest) / (d * q) == b / d
  {
    var h, r := b / d, b % d;
    Distribute(h * d, r, q);
    Rearrange(h, d, q);
    Distribute(r, 1, q);
    Monotone(r + 1, d, q);
    QuotientUnique(b * q + rest, d * q, h, r * q + rest);
  }

  lemma QuotientOfSum(b: nat, m: nat, f: nat, rest: nat)
    requires m > 0 && rest < m * f
    ensures (b * (m * f) + rest) / m == b * f + rest / m
    ensures rest / m < f
  {
    Rearrange(b, m, f);
    Distribute(b * f, rest / m, m);
    QuotientUnique(b * (m * f) + rest, m, b * f + rest / m, rest % m);
    QuotientBelow(rest, m, f);
  }

  lemma EqualSplit(a: nat, x: nat, b: nat, y: nat, f: nat)
    requires x < f && y < f
    ensures a * f + x == b * f + y <==> a == b && x == y
  {
    QuotientUnique(a * f + x, f, a, x);
    QuotientUnique(b * f + y, f, b, y);
  }

  /** A prefix within the first byte compares that byte only. */
  lemma PrefixWithinByte(n: nat, prefix: nat, a: nat, x: nat, b: nat, y: nat)
    requires n > 0 && prefix < 8 && x < Pow2(8 * (n - 1)) && y < Pow2(8 * (n - 1))
    ensures var m := Pow2(8 * n - prefix);
            Joined(a, 8 * (n - 1), x) / m == Joined(b, 8 * (n - 1), y) / m <==>
              a / Pow2(8 - prefix) == b / Pow2(8 - prefix)
  {
    PowUpTo(8 * n - prefix, 8 - prefix);
    QuotientOfHigh(a, Pow2(8 - prefix), Pow2(8 * (n - 1)), x);
    QuotientOfHigh(b, Pow2(8 - prefix), Pow2(8 * (n - 1)), y);
  }

  /** A longer prefix compares the first byte whole and then the rest. */
  lemma PrefixBeyondByte(n: nat, prefix: nat, a: nat, x: nat, b: nat, y: nat)
    requires n > 0 && 8 <= prefix <= 8 * n && x < Pow2(8 * (n - 1)) && y < Pow2(8 * (n - 1))
    ensures var m := Pow2(8 * n - prefix);
            Joined(a, 8 * (n - 1), x) / m == Joined(b, 8 * (n - 1), y) / m <==> a == b && x / m == y / m
  {
    PowUpTo(8 * (n - 1), 8 * n - prefix);
    SplitComparison(Pow2(8 * (n - 1)), Pow2(8 * n - prefix), Pow2(prefix - 8), a, x, b, y);
  }

  lemma SplitComparison(q: nat, m: nat, f: nat, a: nat, x: nat, b: nat, y: nat)
    requires m > 0 && q == m * f && x < q && y < q
    ensures (a * q + x) / m == (b * q + y) / m <==> a == b && x / m == y / m
  {
    QuotientOfSum(a, m, f, x);
    QuotientOfSum(b, m, f, y);
    EqualSplit(a, x / m, b, y / m, f);
  }

  /** Matching leading bits is comparing the integers above the open bits. */
  lemma {:induction false} PrefixMatchIsQuotient(a: seq<nat>, b: seq<nat>, prefix: nat)
    requires AreBytes(a) && AreBytes(b) && |a| == |b| && prefix <= 8 * |a|
    ensures PrefixMatch(a, b, prefix) <==>
            Value(a) / Pow2(8 * |a| - prefix) == Value(b) / Pow2(8 * |a| - prefix)
  {
    if prefix == 0 {
      ValueBound(a);
      ValueBound(b);
      QuotientUnique(Value(a), Pow2(8 * |a|), 0, Value(a));
      QuotientUnique(Value(b), Pow2(8 * |a|), 0, Value(b));
    } else {
      assert forall x | x in a[1..] :: x in a;
      assert forall x | x in b[1..] :: x in b;
      ValueBound(a[1..]);
      ValueBound(b[1..]);
      if prefix < 8 {
        PrefixWithinByte(|a|, prefix, a[0], Value(a[1..]), b[0], Value(b[1..]));
      } else {
        PrefixBeyondByte(|a|, prefix, a[0], Value(a[1..]), b[0], Value(b[1..]));
        PrefixMatchIsQuotient(a[1..], b[1..], prefix - 8);
        assert 8 * |a[1..]| - (prefix - 8) == 8 * |a| - prefix;
        WholeByte(a[0]);
        WholeByte(b[0]);
      }
    }
  }

  lemma WholeByte(b: nat)
    ensures b / Pow2(0) == b
  {
    assert Pow2(0) == 1;
  }

  lemma QuotientOfRounded(x: nat, m: nat)
    requires m > 0
    ensures RoundDown(x, m) / m == x / m
  {
    QuotientUnique(RoundDown(x, m), m, x / m, 0);
  }

  /**
   * A compiled target matches a client exactly when the client is a single address whose folded
   * integer lies in the block of the target.
   */
  lemma MatcherExact(target: Input, client: Input)
    requires ValidAddress(target.address) && Normalize(target).Success? && ValidAddress(client.address)
    ensures ValidAddress(Address(Normalize(target).value.family, Normalize(target).value.bytes))
    ensures Normalize(target).value.prefix <= Width(Normalize(target).value.family)
    ensures Matches(Normalize(target).value, client) <==>
              && Normalize(client).Success? && OpenBits(client) == 0
              && Denotes(target, Folded(client.address).family, Value(Folded(client.address).bytes))
  {
    NormalizeIsValid(target);
    NormalFormOfBlock(target);
    if Normalize(client).Success? {
      var c, t := Normalize(client).value, Normalize(target).value;
      NormalizeIsValid(client);
      NormalFormOfBlock(client);
      if OpenBits(client) == 0 && c.family == t.family {
        assert Pow2(0) == 1;
        PrefixMatchIsQuotient(c.bytes, t.bytes, t.prefix);
        QuotientOfRounded(Value(Folded(target.address).bytes), Pow2(OpenBits(target)));
      }
    }
  }

  // ----- in plain terms -----

  /** The first twelve bytes of an IPv4-mapped address. */
  const MAPPED: seq<nat> := [0, 0, 0, 0, 0, 0, 0, 0, 0, 0, 255, 255]

  lemma MappedExact(a: Address)
    requires ValidAddress(a)
    ensures IsMapped(a) <==> a.family == V6 && a.bytes[..12] == MAPPED
  {
    if a.family == V6 {
      assert a.bytes[..12] == MAPPED <==> forall i | 0 <= i < 12 :: a.bytes[i] == MAPPED[i];
    }
  }

  /** The prefix of an input that gives none is the whole width. */
  function GivenPrefix(input: Input): nat {
    if input.prefix.Some? then input.prefix.value else if input.address.family == V4 then 32 else 128
  }

  /** An input is refused exactly when its prefix is longer than the address, or reaches outside a mapped one. */
  lemma AcceptedExact(input: Input)
    requires ValidAddress(input.address)
    ensures Normalize(input).Success? <==>
              && GivenPrefix(input) <= (if input.address.family == V4 then 32 else 128)
              && (input.address.family == V6 && input.address.bytes[..12] == MAPPED ==> GivenPrefix(input) >= 96)
    ensures Normalize(input).Success? ==>
              OpenBits(input) == (if input.address.family == V4 then 32 else 128) - GivenPrefix(input)
  {
    MappedExact(input.address);
  }

  /** The family and the number an address stands for. */
  ghost function Number(a: Address): (Family, nat)
    requires ValidAddress(a)
  {
    if a.family == V6 && a.bytes[..12] == MAPPED then (V4, Value(a.bytes[12..])) else (a.family, Value(a.bytes))
  }

  /**
   * A compiled target matches a client exactly when the client is one whole address of the same family, and the two
   * numbers agree above the bits that the target leaves open.
   */
  lemma MatcherInNumbers(target: Input, client: Input)
    requires ValidAddress(target.address) && Normalize(target).Success? && ValidAddress(client.address)
    ensures ValidAddress(Address(Normalize(target).value.family, Normalize(target).value.bytes))
    ensures Normalize(target).value.prefix <= Width(Normalize(target).value.family)
    ensures Matches(Normalize(target).value, client) <==>
              && GivenPrefix(client) == (if client.address.family == V4 then 32 else 128)
              && Number(client.address).0 == Number(target.address).0
              && var open := Pow2((if target.address.family == V4 then 32 else 128) - GivenPrefix(target));
                 Number(client.address).1 / open == Number(target.address).1 / open
  {
    MatcherExact(target, client);
    AcceptedExact(target);
    AcceptedExact(client);
    MappedExact(target.address);
    MappedExact(client.address);
    hide IsMapped, Normalize, Matches, Value, Pow2;
    FoldedIsValid(client.address);
    ValueBound(Folded(client.address).bytes);
  }
}

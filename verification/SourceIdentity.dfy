/**
 * The identity of a file to be uploaded: a hash over a manifest of block hashes. The hash function is a parameter
 * with 32-byte results and no other property, so what is proved is that a confusion of files would exhibit a
 * collision of the hash.
 */
module SourceIdentity {
  import opened Bytes

  const BLOCK_SIZE: nat := 1048576

  /** "PCU-UPLOAD-SOURCE-V1" and a zero byte. */
  const PREFIX: seq<Byte> :=
    [0x50, 0x43, 0x55, 0x2D, 0x55, 0x50, 0x4C, 0x4F, 0x41, 0x44, 0x2D,
     0x53, 0x4F, 0x55, 0x52, 0x43, 0x45, 0x2D, 0x56, 0x31, 0x00]

  type Digest = d: seq<Byte> | |d| == 32 witness seq(32, i => 0)

  type Hash = seq<Byte> -> Digest

  // ----- blocks -----

  function Blocks(file: seq<Byte>): seq<seq<Byte>>
    decreases |file|
  {
    if file == [] then [] else [First(file, BLOCK_SIZE)] + Blocks(file[|First(file, BLOCK_SIZE)|..])
  }

  function Ceiling(size: nat): nat {
    (size + BLOCK_SIZE - 1) / BLOCK_SIZE
  }

  /** The blocks partition the file: joined they give it back, all but the last are full, none is empty. */
  lemma {:induction false} BlocksPartition(file: seq<Byte>)
    ensures Flatten(Blocks(file)) == file
    ensures |Blocks(file)| == Ceiling(|file|)
    ensures forall i | 0 <= i < |Blocks(file)| ::
              1 <= |Blocks(file)[i]| <= BLOCK_SIZE && (i < |Blocks(file)| - 1 ==> |Blocks(file)[i]| == BLOCK_SIZE)
    decreases |file|
  {
    if file == [] {
    } else {
      var first := First(file, BLOCK_SIZE);
      var rest := file[|first|..];
      BlocksPartition(rest);
      FlattenCons(first, Blocks(rest));
      assert first + rest == file;
      if rest != [] {
        assert Ceiling(|file|) == 1 + Ceiling(|rest|);
      }
    }
  }

  /** The count fits its 32-bit field exactly for files of up to 2^32 - 1 blocks. */
  lemma CountFits(file: seq<Byte>)
    ensures |Blocks(file)| < 0x1_0000_0000 <==> |file| <= 0xFFFF_FFFF * BLOCK_SIZE
  {
    BlocksPartition(file);
  }

  // ----- fixed-width numbers -----

  function Limit(width: nat): (l: nat)
    ensures l > 0
  {
    if width == 0 then 1 else 256 * Limit(width - 1)
  }

  /** Big-endian, dropping what does not fit. */
  function BigEndian(n: nat, width: nat): (r: seq<Byte>)
    ensures |r| == width
  {
    if width == 0 then [] else BigEndian(n / 256, width - 1) + [n % 256]
  }

  lemma {:induction false} BigEndianUnique(a: nat, b: nat, width: nat)
    requires a < Limit(width) && b < Limit(width) && BigEndian(a, width) == BigEndian(b, width)
    ensures a == b
  {
    if width == 0 {
    } else {
      var x, y := BigEndian(a / 256, width - 1), BigEndian(b / 256, width - 1);
      assert x == (x + [a % 256])[..width - 1] && y == (y + [b % 256])[..width - 1];
      assert (x + [a % 256])[width - 1] == (y + [b % 256])[width - 1];
      BigEndianUnique(a / 256, b / 256, width - 1);
    }
  }

  // ----- the root input -----

  function Digests(blocks: seq<seq<Byte>>, hash: Hash): (r: seq<Digest>)
    ensures |r| == |blocks| && forall i | 0 <= i < |r| :: r[i] == hash(blocks[i])
  {
    seq(|blocks|, i requires 0 <= i < |blocks| => hash(blocks[i]))
  }

  function Manifest(digests: seq<Digest>): seq<Byte> {
    Flatten(digests)
  }

  function Header(size: nat, count: nat): (r: seq<Byte>)
    ensures |r| == 16
  {
    BigEndian(size, 8) + BigEndian(BLOCK_SIZE, 4) + BigEndian(count, 4)
  }

  function RootInput(size: nat, digests: seq<Digest>): seq<Byte> {
    PREFIX + Header(size, |digests|) + Manifest(digests)
  }

  lemma {:induction false} ManifestLength(digests: seq<Digest>)
    ensures |Manifest(digests)| == 32 * |digests|
  {
    if digests == [] {
    } else {
      ManifestLength(digests[..|digests| - 1]);
    }
  }

  lemma {:induction false} ManifestUnique(a: seq<Digest>, b: seq<Digest>)
    requires Manifest(a) == Manifest(b)
    ensures a == b
  {
    ManifestLength(a);
    ManifestLength(b);
    if a == [] {
    } else {
      var n := |a| - 1;
      ManifestLength(a[..n]);
      ManifestLength(b[..n]);
      assert Manifest(a)[..32 * n] == Manifest(a[..n]) && Manifest(b)[..32 * n] == Manifest(b[..n]);
      assert Manifest(a)[32 * n..] == a[n] && Manifest(b)[32 * n..] == b[n];
      ManifestUnique(a[..n], b[..n]);
      assert a == a[..n] + [a[n]] && b == b[..n] + [b[n]];
    }
  }

  /** A root input says what it was made of, even where the count has wrapped around. */
  lemma RootInputUnique(size: nat, digests: seq<Digest>, otherSize: nat, otherDigests: seq<Digest>)
    requires size < Limit(8) && otherSize < Limit(8)
    requires RootInput(size, digests) == RootInput(otherSize, otherDigests)
    ensures size == otherSize && digests == otherDigests
  {
    hide Manifest, BigEndian, Limit;
    var a, b := RootInput(size, digests), RootInput(otherSize, otherDigests);
    assert |PREFIX| == 21;
    assert a[|PREFIX|..|PREFIX| + 8] == BigEndian(size, 8) && b[|PREFIX|..|PREFIX| + 8] == BigEndian(otherSize, 8);
    assert a[|PREFIX| + 16..] == Manifest(digests) && b[|PREFIX| + 16..] == Manifest(otherDigests);
    BigEndianUnique(size, otherSize, 8);
    ManifestUnique(digests, otherDigests);
  }

  // ----- the identity -----

  function HexDigit(n: int): char
    requires 0 <= n < 16
  {
    if n < 10 then '0' + n as char else 'a' + (n - 10) as char
  }

  function Hex(bytes: seq<Byte>): string {
    if bytes == [] then "" else Hex(bytes[..|bytes| - 1]) + [HexDigit(Last(bytes) / 16), HexDigit(Last(bytes) % 16)]
  }

  function Last(bytes: seq<Byte>): int
    requires bytes != []
  {
    bytes[|bytes| - 1]
  }

  lemma {:induction false} HexUnique(a: seq<Byte>, b: seq<Byte>)
    requires |a| == |b| && Hex(a) == Hex(b)
    ensures a == b
  {
    if a == [] {
    } else {
      var n := |a| - 1;
      var x, y := Hex(a[..n]), Hex(b[..n]);
      var p, q := [HexDigit(Last(a) / 16), HexDigit(Last(a) % 16)], [HexDigit(Last(b) / 16), HexDigit(Last(b) % 16)];
      assert x == (x + p)[..|x + p| - 2] && y == (y + q)[..|y + q| - 2];
      assert p == (x + p)[|x + p| - 2..] && q == (y + q)[|y + q| - 2..];
      HexDigitUnique(Last(a) / 16, Last(b) / 16);
      assert p[0] == q[0] && p[1] == q[1];
      HexDigitUnique(Last(a) % 16, Last(b) % 16);
      HexUnique(a[..n], b[..n]);
      assert a == a[..n] + [a[n]] && b == b[..n] + [b[n]];
    }
  }

  lemma HexDigitUnique(m: int, n: int)
    requires 0 <= m < 16 && 0 <= n < 16
    ensures HexDigit(m) == HexDigit(n) ==> m == n
  {
  }

  function RootOf(file: seq<Byte>, hash: Hash): seq<Byte> {
    RootInput(|file|, Digests(Blocks(file), hash))
  }

  function SourceIdentityOf(file: seq<Byte>, hash: Hash): string {
    Hex(hash(RootOf(file, hash)))
  }

  function FirstDifference(a: seq<seq<Byte>>, b: seq<seq<Byte>>): (i: nat)
    requires |a| == |b| && a != b
    ensures i < |a| && a[i] != b[i]
  {
    if a[0] != b[0] then 0
    else
      assert a == [a[0]] + a[1..] && b == [b[0]] + b[1..];
      1 + FirstDifference(a[1..], b[1..])
  }

  /** Two inputs to hash, read off two files: their root inputs, or the first blocks in which they differ. */
  function Confusion(file: seq<Byte>, other: seq<Byte>, hash: Hash): (seq<Byte>, seq<Byte>) {
    if RootOf(file, hash) != RootOf(other, hash) then (RootOf(file, hash), RootOf(other, hash))
    else
      var a, b := Blocks(file), Blocks(other);
      if |a| == |b| && a != b then (a[FirstDifference(a, b)], b[FirstDifference(a, b)]) else ([], [])
  }

  /** Different files with the same identity hand over a collision of the hash function. */
  lemma SameIdentityIsCollision(file: seq<Byte>, other: seq<Byte>, hash: Hash)
    requires file != other && |file| < Limit(8) && |other| < Limit(8)
    requires SourceIdentityOf(file, hash) == SourceIdentityOf(other, hash)
    ensures var (x, y) := Confusion(file, other, hash); x != y && hash(x) == hash(y)
  {
    hide Blocks, RootInput, Hex, Limit;
    HexUnique(hash(RootOf(file, hash)), hash(RootOf(other, hash)));
    var a, b := Blocks(file), Blocks(other);
    if RootOf(file, hash) == RootOf(other, hash) {
      RootInputUnique(|file|, Digests(a, hash), |other|, Digests(b, hash));
      BlocksPartition(file);
      BlocksPartition(other);
      var i := FirstDifference(a, b);
      assert Digests(a, hash)[i] == Digests(b, hash)[i];
    }
  }

  // ----- how it is computed -----

  datatype Identity = Identity(sourceIdentity: string, blockDigests: seq<string>)

  /** Copies bytes into a buffer at an offset. */
  method SetAt(buffer: array<Byte>, bytes: seq<Byte>, offset: nat)
    requires offset + |bytes| <= buffer.Length
    modifies buffer
    ensures buffer[..] == old(buffer[..offset]) + bytes + old(buffer[offset + |bytes|..])
  {
    forall i | 0 <= i < |bytes| {
      buffer[offset + i] := bytes[i];
    }
  }

  method FillManifest(digests: seq<Digest>) returns (manifest: array<Byte>)
    ensures fresh(manifest) && manifest[..] == Manifest(digests)
  {
    manifest := new Byte[|digests| * 32];
    for i := 0 to |digests|
      invariant manifest.Length == |digests| * 32
      invariant manifest[..32 * i] == Manifest(digests[..i])
    {
      assert digests[..i + 1][..i] == digests[..i];
      SetAt(manifest, digests[i], 32 * i);
      assert manifest[..32 * (i + 1)] == Manifest(digests[..i]) + digests[i];
    }
    assert digests[..|digests|] == digests;
    assert manifest[..32 * |digests|] == manifest[..];
  }

  /** Fills a buffer from three pieces, each set at its own offset. */
  method FillThree(a: seq<Byte>, b: seq<Byte>, c: seq<Byte>) returns (buffer: array<Byte>)
    ensures fresh(buffer) && buffer[..] == a + b + c
  {
    buffer := new Byte[|a| + |b| + |c|];
    SetAt(buffer, a, 0);
    assert buffer[..|a|] == a;
    SetAt(buffer, b, |a|);
    assert buffer[..|a| + |b|] == a + b;
    SetAt(buffer, c, |a| + |b|);
  }

  method FillRootInput(size: nat, digests: seq<Digest>) returns (rootInput: array<Byte>)
    ensures fresh(rootInput) && rootInput[..] == RootInput(size, digests)
  {
    hide BigEndian, Manifest;
    var header := FillThree(BigEndian(size, 8), BigEndian(BLOCK_SIZE, 4), BigEndian(|digests|, 4));
    var manifest := FillManifest(digests);
    rootInput := FillThree(PREFIX, header[..], manifest[..]);
  }

  /** The block that starts at a given multiple of the block size. */
  lemma {:induction false} BlockAt(file: seq<Byte>, n: nat)
    requires n * BLOCK_SIZE < |file|
    ensures n < |Blocks(file)| && Blocks(file)[n] == First(file[n * BLOCK_SIZE..], BLOCK_SIZE)
    decreases n
  {
    if n == 0 {
      assert file[0..] == file;
    } else {
      var rest := file[BLOCK_SIZE..];
      BlockAt(rest, n - 1);
      assert rest[(n - 1) * BLOCK_SIZE..] == file[n * BLOCK_SIZE..];
    }
  }

  method CreateFileSourceIdentity(file: seq<Byte>, hash: Hash) returns (r: Identity)
    ensures r.sourceIdentity == SourceIdentityOf(file, hash)
    ensures |r.blockDigests| == |Blocks(file)|
    ensures forall i | 0 <= i < |Blocks(file)| :: r.blockDigests[i] == Hex(hash(Blocks(file)[i]))
  {
    hide Hex, RootInput, Blocks;
    var digests: seq<string>, digestBytes: seq<Digest> := [], [];
    var offset := 0;
    while offset < |file|
      invariant offset == |digests| * BLOCK_SIZE && |digestBytes| == |digests| && offset < |file| + BLOCK_SIZE
      invariant |digests| <= |Blocks(file)|
      invariant forall i | 0 <= i < |digests| ::
                  digestBytes[i] == hash(Blocks(file)[i]) && digests[i] == Hex(hash(Blocks(file)[i]))
      decreases |file| - offset
    {
      BlockAt(file, |digests|);
      var digest := hash(First(file[offset..], BLOCK_SIZE));
      digestBytes := digestBytes + [digest];
      digests := digests + [Hex(digest)];
      offset := offset + BLOCK_SIZE;
    }
    BlocksPartition(file);
    assert digestBytes == Digests(Blocks(file), hash);
    var rootInput := FillRootInput(|file|, digestBytes);
    r := Identity(Hex(hash(rootInput[..])), digests);
  }
}

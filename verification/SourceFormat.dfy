/** The bytes and letters of a source identity, position by position. */
module SourceFormat {
  import opened Bytes
  import opened SourceIdentity
  import IpTarget

  const HEX_LETTERS := "0123456789abcdef"

  /** The name at the front of every root input. */
  const NAME := "PCU-UPLOAD-SOURCE-V1"

  /** Two small letters a byte, the high half first. */
  lemma {:induction false} HexExact(bytes: seq<Byte>)
    ensures |Hex(bytes)| == 2 * |bytes|
    ensures forall i | 0 <= i < |bytes| ::
              Hex(bytes)[2 * i] == HEX_LETTERS[bytes[i] / 16] && Hex(bytes)[2 * i + 1] == HEX_LETTERS[bytes[i] % 16]
  {
    if bytes == [] {
    } else {
      var front, last := bytes[..|bytes| - 1], Last(bytes);
      HexExact(front);
      LettersExact(last / 16);
      LettersExact(last % 16);
      hide HexDigit;
      forall i | 0 <= i < |bytes|
        ensures Hex(bytes)[2 * i] == HEX_LETTERS[bytes[i] / 16] && Hex(bytes)[2 * i + 1] == HEX_LETTERS[bytes[i] % 16]
      {
        if i < |front| {
          assert bytes[i] == front[i];
        }
      }
    }
  }

  lemma LettersExact(n: int)
    requires 0 <= n < 16
    ensures HexDigit(n) == HEX_LETTERS[n]
  {
    assert HEX_LETTERS[0] == '0' && HEX_LETTERS[1] == '1' && HEX_LETTERS[2] == '2' && HEX_LETTERS[3] == '3';
  }

  /** 256 to the power of a width. */
  lemma Widths()
    ensures Limit(0) == 1 && Limit(1) == 0x100 && Limit(2) == 0x1_0000 && Limit(3) == 0x100_0000
    ensures Limit(4) == 0x1_0000_0000 && Limit(8) == 0x1_0000_0000_0000_0000
  {
  }

  lemma QuotientTwice(n: nat, m: nat)
    requires m > 0
    ensures n / 256 / m == n / (256 * m)
  {
    var q, r := n / 256, n % 256;
    var a, b := q / m, q % m;
    assert n == 256 * (a * m + b) + r;
    assert 256 * (a * m) == a * (256 * m);
    IpTarget.QuotientUnique(n, 256 * m, a, 256 * b + r);
  }

  /** The most significant byte comes first, and what does not fit is dropped. */
  lemma {:induction false} BigEndianExact(n: nat, width: nat)
    ensures forall i | 0 <= i < width :: BigEndian(n, width)[i] == n / Limit(width - 1 - i) % 256
  {
    if width > 0 {
      BigEndianExact(n / 256, width - 1);
      forall i | 0 <= i < width ensures BigEndian(n, width)[i] == n / Limit(width - 1 - i) % 256 {
        if i < width - 1 {
          QuotientTwice(n, Limit(width - 2 - i));
        }
      }
    }
  }

  lemma PrefixExact()
    ensures |PREFIX| == 21 && PREFIX[20] == 0 && |NAME| == 20
    ensures forall i | 0 <= i < 20 :: PREFIX[i] == NAME[i] as int
  {
  }

  lemma {:induction false} ManifestAt(digests: seq<Digest>, n: nat)
    requires n < |digests|
    ensures |Manifest(digests)| == 32 * |digests|
    ensures Manifest(digests)[32 * n..32 * n + 32] == digests[n]
  {
    ManifestLength(digests);
    var front := digests[..|digests| - 1];
    ManifestLength(front);
    if n < |front| {
      ManifestAt(front, n);
      assert Manifest(digests)[..32 * |front|] == Manifest(front);
      assert Manifest(digests)[32 * n..32 * n + 32] == Manifest(front)[32 * n..32 * n + 32];
    }
  }

  /** The bytes of a number, the most significant one first. */
  ghost predicate Spells(bytes: seq<Byte>, n: nat) {
    forall i | 0 <= i < |bytes| :: bytes[i] == n / Limit(|bytes| - 1 - i) % 256
  }

  lemma BigEndianSpells(n: nat, width: nat)
    ensures Spells(BigEndian(n, width), n)
  {
    BigEndianExact(n, width);
  }

  lemma RootParts(size: nat, digests: seq<Digest>)
    ensures var r := RootInput(size, digests);
            && r[..21] == PREFIX && r[21..29] == BigEndian(size, 8) && r[29..33] == BigEndian(BLOCK_SIZE, 4)
            && r[33..37] == BigEndian(|digests|, 4) && r[37..] == Manifest(digests)
  {
    hide BigEndian, Manifest;
    assert |PREFIX| == 21;
  }

  /**
   * The root input of a file, part by part: the name and a zero, the size in eight bytes, the block size 1048576 and
   * the number of blocks in four each, and the digests of the blocks in the file's order.
   */
  lemma RootLayout(file: seq<Byte>, hash: Hash)
    ensures var r, count := RootOf(file, hash), |Blocks(file)|;
            && |r| == 37 + 32 * count
            && (forall i | 0 <= i < 20 :: r[i] == NAME[i] as int) && r[20] == 0
            && Spells(r[21..29], |file|) && r[29..33] == [0, 16, 0, 0] && Spells(r[33..37], count)
            && forall n | 0 <= n < count :: r[37 + 32 * n..69 + 32 * n] == hash(Blocks(file)[n])
  {
    hide BigEndian, Manifest, Blocks, Spells;
    var digests := Digests(Blocks(file), hash);
    var r, count := RootOf(file, hash), |Blocks(file)|;
    ManifestLength(digests);
    RootParts(|file|, digests);
    hide RootInput;
    PrefixExact();
    BigEndianSpells(|file|, 8);
    BigEndianSpells(count, 4);
    BlockSizeBytes();
    assert forall i | 0 <= i < 21 :: r[i] == r[..21][i];
    forall n | 0 <= n < count ensures r[37 + 32 * n..69 + 32 * n] == hash(Blocks(file)[n]) {
      ManifestAt(digests, n);
      assert r[37 + 32 * n..69 + 32 * n] == r[37..][32 * n..32 * n + 32];
    }
  }

  lemma BlockSizeBytes()
    ensures BigEndian(BLOCK_SIZE, 4) == [0, 16, 0, 0]
  {
    Widths();
    BigEndianExact(BLOCK_SIZE, 4);
  }

  /** Block n holds the bytes from n * 1048576 on, as many as there are up to that number. */
  lemma BlockExact(file: seq<Byte>, n: nat)
    requires n < |Blocks(file)|
    ensures n * 1048576 < |file|
    ensures var end := n * 1048576 + 1048576;
            Blocks(file)[n] == file[n * 1048576..if end < |file| then end else |file|]
  {
    BlocksPartition(file);
    BlockAt(file, n);
  }
}

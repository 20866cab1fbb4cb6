/**
 * Messages as chains of cipher blocks: a frame with checksum and padding, cut
 * into blocks that are ciphered from the back to the front, each chained to
 * the one ciphered before it.
 */
module BlockChains {
  import opened Bits
  import opened AES
  import opened AESCipher
  import opened Options
  import opened Unsigned

  // ----- blocks of a buffer

  function BlocksOf(d: seq<Byte>): (b: seq<Block>)
    requires |d| % 16 == 0
    ensures 16 * |b| == |d|
  {
    seq(|d| / 16, k requires 0 <= k < |d| / 16 => BlockAt(d, 16 * k))
  }

  function Joined(b: seq<Block>): (d: seq<Byte>)
    ensures |d| == 16 * |b|
  {
    if b == [] then [] else Joined(b[..|b| - 1]) + b[|b| - 1]
  }

  lemma BlocksOfAt(d: seq<Byte>, k: nat)
    requires |d| % 16 == 0 && 16 * k + 16 <= |d|
    ensures k < |BlocksOf(d)| && BlocksOf(d)[k] == BlockAt(d, 16 * k)
  {
  }

  lemma BlockInFront(d: seq<Byte>, b: Block, at: nat)
    requires at + 16 <= |d|
    ensures BlockAt(d + b, at) == BlockAt(d, at)
  {
  }

  lemma BlockBehind(d: seq<Byte>, b: Block)
    ensures BlockAt(d + b, |d|) == b
  {
  }

  lemma {:induction false} BlocksOfJoined(b: seq<Block>)
    ensures BlocksOf(Joined(b)) == b
  {
    if b != [] {
      var n := |b| - 1;
      var c := Joined(b[..n]);
      var d := Joined(b);
      assert d == c + b[n];
      BlocksOfJoined(b[..n]);
      hide BlocksOf, BlockAt, Joined;
      var e := BlocksOf(d);
      forall k | 0 <= k < |b|
        ensures e[k] == b[k]
      {
        BlocksOfAt(d, k);
        if k < n {
          BlocksOfAt(c, k);
          BlockInFront(c, b[n], 16 * k);
          assert b[..n][k] == b[k];
        } else {
          BlockBehind(c, b[n]);
        }
      }
    }
  }

  lemma SameBlocks(d: seq<Byte>, e: seq<Byte>)
    requires |d| % 16 == 0 && |e| % 16 == 0 && BlocksOf(d) == BlocksOf(e)
    ensures d == e
  {
    assert |d| == 16 * |BlocksOf(d)| == |e|;
    forall i | 0 <= i < |d|
      ensures d[i] == e[i]
    {
      assert BlocksOf(d)[i / 16][i % 16] == BlocksOf(e)[i / 16][i % 16];
    }
  }

  lemma BlocksPatched(d: seq<Byte>, k: nat, b: Block)
    requires |d| % 16 == 0 && 16 * k + 16 <= |d|
    ensures BlocksOf(Patched(d, 16 * k, b)) == BlocksOf(d)[k := b]
    ensures BlocksOf(d)[k] == BlockAt(d, 16 * k)
  {
    var e := Patched(d, 16 * k, b);
    forall j | 0 <= j < |d| / 16
      ensures BlocksOf(e)[j] == BlocksOf(d)[k := b][j]
    {
      PatchedElsewhere(d, 16 * k, b, 16 * j);
    }
  }

  lemma PatchedElsewhere(d: seq<Byte>, at: nat, b: Block, other: nat)
    requires at + 16 <= |d| && other + 16 <= |d|
    ensures other == at ==> BlockAt(Patched(d, at, b), other) == b
    ensures other + 16 <= at || at + 16 <= other ==> BlockAt(Patched(d, at, b), other) == BlockAt(d, other)
  {
  }

  // ----- chaining

  /** The blocks after the first one, ciphered from the last on; `previous` is the block ciphered before. */
  function ChainedTail(t: seq<Block>, previous: Block, schedule: seq<Byte>): (c: seq<Block>)
    requires |schedule| == 176
    ensures |c| == |t|
  {
    if t == [] then []
    else
      var n := |t| - 1;
      var last := Encrypted(AddedKey(t[n], previous), schedule);
      ChainedTail(t[..n], last, schedule) + [last]
  }

  function Chained(b: seq<Block>, schedule: seq<Byte>): (c: seq<Block>)
    requires |schedule| == 176 && b != []
    ensures |c| == |b|
  {
    var first := Encrypted(b[0], schedule);
    [first] + ChainedTail(b[1..], first, schedule)
  }

  /** Block i of a chain is chained to the one behind it, the last one to the first. */
  function UnchainedBlock(c: seq<Block>, i: nat, schedule: seq<Byte>): Block
    requires |schedule| == 176 && i < |c|
  {
    if i == 0 then Decrypted(c[0], schedule)
    else AddedKey(Decrypted(c[i], schedule), if i == |c| - 1 then c[0] else c[i + 1])
  }

  function Unchained(c: seq<Block>, schedule: seq<Byte>): (b: seq<Block>)
    requires |schedule| == 176 && c != []
    ensures |b| == |c|
  {
    seq(|c|, i requires 0 <= i < |c| => UnchainedBlock(c, i, schedule))
  }

  lemma {:induction false} TailBack(t: seq<Block>, previous: Block, schedule: seq<Byte>, i: nat)
    requires |schedule| == 176 && i < |t|
    ensures var c := ChainedTail(t, previous, schedule);
            AddedKey(Decrypted(c[i], schedule), if i == |t| - 1 then previous else c[i + 1]) == t[i]
  {
    hide Encrypted, Decrypted, AddedKey;
    var n := |t| - 1;
    var last := Encrypted(AddedKey(t[n], previous), schedule);
    if i == n {
      DecryptEncrypt(AddedKey(t[n], previous), schedule);
      AddKeyTwice(t[n], previous);
    } else {
      TailBack(t[..n], last, schedule, i);
    }
  }

  lemma ChainBack(b: seq<Block>, schedule: seq<Byte>)
    requires |schedule| == 176 && b != []
    ensures Unchained(Chained(b, schedule), schedule) == b
  {
    hide Encrypted, Decrypted, AddedKey, ChainedTail;
    var c, first := Chained(b, schedule), Encrypted(b[0], schedule);
    forall i | 0 <= i < |b|
      ensures Unchained(c, schedule)[i] == b[i]
    {
      if i == 0 {
        DecryptEncrypt(b[0], schedule);
      } else {
        TailBack(b[1..], first, schedule, i - 1);
      }
    }
  }

  /** Every block is ciphered on its own or together with the ciphered block behind it, the last with the first. */
  lemma ChainLinks(b: seq<Block>, schedule: seq<Byte>, i: nat)
    requires |schedule| == 176 && i < |b|
    ensures var c := Chained(b, schedule);
            c[i] == if i == 0 then Encrypted(b[0], schedule)
                    else Encrypted(AddedKey(b[i], if i == |b| - 1 then c[0] else c[i + 1]), schedule)
  {
    hide Encrypted, AddedKey, ChainedTail;
    if i > 0 {
      TailLinks(b[1..], Encrypted(b[0], schedule), schedule, i - 1);
    }
  }

  lemma {:induction false} TailLinks(t: seq<Block>, previous: Block, schedule: seq<Byte>, i: nat)
    requires |schedule| == 176 && i < |t|
    ensures var c := ChainedTail(t, previous, schedule);
            c[i] == Encrypted(AddedKey(t[i], if i == |t| - 1 then previous else c[i + 1]), schedule)
  {
    hide Encrypted, AddedKey;
    var n := |t| - 1;
    if i < n {
      TailLinks(t[..n], Encrypted(AddedKey(t[n], previous), schedule), schedule, i);
    }
  }

  // ----- checksum

  datatype Sum = Sum(r: nat, sum: nat)

  const EMPTY_SUM := Sum(55665, 0)

  /** The byte that is added for a value, masked with the upper byte of r. */
  function Ciphered(r: nat, value: Byte): Byte {
    value ^ ((r / 256 % 256) as Byte)
  }

  function AddByte(s: Sum, value: Byte): (t: Sum)
    ensures t.r < 0x1_0000 && t.sum < 0x1_0000_0000
  {
    var cipher := Ciphered(s.r, value);
    Sum(((cipher as int + s.r) * 52845 + 22719) % 0x1_0000, (s.sum + cipher as int) % 0x1_0000_0000)
  }

  function AddBytes(s: Sum, d: seq<Byte>): Sum {
    if d == [] then s else AddByte(AddBytes(s, d[..|d| - 1]), d[|d| - 1])
  }

  function CheckSumOf(d: seq<Byte>): (c: seq<Byte>)
    ensures |c| == 4
  {
    FourBytes(AddBytes(EMPTY_SUM, d).sum)
  }

  lemma OneMoreByte(s: Sum, d: seq<Byte>, b: Byte)
    ensures AddBytes(s, d + [b]) == AddByte(AddBytes(s, d), b) && AddBytes(s, []) == s
  {
    hide AddByte;
    assert (d + [b])[..|d|] == d;
  }

  lemma CipheredInjective(r: nat, b: Byte, c: Byte)
    ensures Ciphered(r, b) == Ciphered(r, c) <==> b == c
  {
    var k := (r / 256 % 256) as Byte;
    MaskedInjective(b, c, k);
  }

  lemma MaskedInjective(b: Byte, c: Byte, k: Byte)
    ensures b ^ k == c ^ k <==> b == c
  {
  }

  lemma SmallSums(n: nat, x: nat, y: nat)
    requires x < 256 && y < 256
    ensures (n + x) % 0x1_0000_0000 == (n + y) % 0x1_0000_0000 <==> x == y
  {
  }

  lemma ByteBelow(b: Byte)
    ensures 0 <= b as int < 256
  {
  }

  lemma ByteNumbersDiffer(b: Byte, c: Byte)
    ensures ValueOf(b) == ValueOf(c) <==> b == c
  {
    ToNumberAndBack(b);
    ToNumberAndBack(c);
  }

  lemma SumsDiffer(s: Sum, b: Byte, c: Byte)
    ensures AddByte(s, b).sum == AddByte(s, c).sum <==> b == c
  {
    hide *;
    var x, y := Ciphered(s.r, b), Ciphered(s.r, c);
    AddedSum(s, b);
    AddedSum(s, c);
    CipheredInjective(s.r, b, c);
    ByteNumbersDiffer(x, y);
    SmallSums(s.sum, ValueOf(x), ValueOf(y));
  }

  lemma AddedSum(s: Sum, b: Byte)
    ensures var v := ValueOf(Ciphered(s.r, b)); v < 256 && AddByte(s, b).sum == (s.sum + v) % 0x1_0000_0000
  {
    hide Ciphered;
    ByteBelow(Ciphered(s.r, b));
  }

  lemma FourBytesDiffer(m: nat, n: nat)
    requires m < UNSIGNED_RANGE && n < UNSIGNED_RANGE
    ensures FourBytes(m) == FourBytes(n) <==> m == n
  {
    NumberBack(m);
    NumberBack(n);
    hide FourBytes, NumberOf;
  }

  /** Messages that differ just in their last byte have different checksums. */
  lemma LastByteMatters(d: seq<Byte>, b: Byte, c: Byte)
    ensures CheckSumOf(d + [b]) == CheckSumOf(d + [c]) <==> b == c
  {
    var s := AddBytes(EMPTY_SUM, d);
    OneMoreByte(EMPTY_SUM, d, b);
    OneMoreByte(EMPTY_SUM, d, c);
    hide FourBytes, AddByte, AddBytes;
    SumsDiffer(s, b, c);
    FourBytesDiffer(AddByte(s, b).sum, AddByte(s, c).sum);
  }

  lemma SmallQuotients(v: nat)
    requires v < 256
    ensures v / 0x100 == v / 0x1_0000 == v / 0x100_0000 == 0
  {
  }

  lemma OwnByte(b: Byte)
    ensures FourBytes(b as int) == [b, 0, 0, 0]
  {
    assert LowByte(0) == 0;
    hide LowByte;
    ByteBelow(b);
    ByteAndBack(b);
    SmallQuotients(b as int);
  }

  lemma FirstMasks(b: Byte)
    ensures Ciphered(55665, b) == b ^ 0xD9 && Ciphered(56284, b) == b ^ 0xDB
  {
    assert 55665 / 256 % 256 == 0xD9 && 56284 / 256 % 256 == 0xDB;
  }

  lemma NextMask()
    ensures ((0 + 55665) * 52845 + 22719) % 0x1_0000 == 56284 && (0xD9 as Byte) ^ 0xD9 == 0
  {
  }

  /** The first byte is masked with the upper byte of 55665, the second with that of the number that follows it. */
  lemma FirstCheckSums(b: Byte)
    ensures CheckSumOf([b]) == [b ^ 0xD9, 0, 0, 0] && CheckSumOf([0xD9, b]) == [b ^ 0xDB, 0, 0, 0]
  {
    FirstMasks(b);
    FirstMasks(0xD9);
    NextMask();
    FirstSums(b);
    OneMoreByte(EMPTY_SUM, [], b);
    OneMoreByte(EMPTY_SUM, [], 0xD9);
    assert AddByte(EMPTY_SUM, 0xD9) == Sum(56284, 0) by {
      hide AddBytes, FourBytes;
    }
    hide Ciphered, FourBytes, AddBytes, AddByte;
    OneMoreByte(EMPTY_SUM, [0xD9], b);
    assert [] + [b] == [b] && [] + [0xD9 as Byte] == [0xD9] && [0xD9] + [b] == [0xD9, b];
    OwnByte(b ^ 0xD9);
    OwnByte(b ^ 0xDB);
  }

  lemma FirstSums(b: Byte)
    requires Ciphered(55665, b) == b ^ 0xD9 && Ciphered(56284, b) == b ^ 0xDB
    ensures AddByte(EMPTY_SUM, b).sum == (b ^ 0xD9) as int && AddByte(Sum(56284, 0), b).sum == (b ^ 0xDB) as int
  {
    hide Ciphered;
    ByteBelow(b ^ 0xD9);
    ByteBelow(b ^ 0xDB);
  }

  // ----- frames

  /** How many bytes are missing to whole blocks. */
  function PaddingFor(n: nat): (p: nat)
    ensures p < 16 && (n + 6 + p) % 16 == 0
  {
    16 - ((n + 6 - 1) % 16 + 1)
  }

  /** The size of the padding in the lower half of a byte; the upper half is random. */
  function EncodedPad(random: Byte, p: nat): Byte
    requires p < 16
  {
    (random << 4) | (p as Byte)
  }

  function DecodedPad(b: Byte): (p: nat)
    ensures p < 16
  {
    LowBits(b);
    (b & 0x0F) as int
  }

  lemma LowBits(b: Byte)
    ensures (b & 0x0F) < 16
  {
  }

  lemma PadBack(random: Byte, p: nat)
    requires p < 16
    ensures DecodedPad(EncodedPad(random, p)) == p
  {
    var b := p as Byte;
    assert b < 16;
    LowHalf(random, b);
  }

  lemma LowHalf(random: Byte, b: Byte)
    requires b < 16
    ensures ((random << 4) | b) & 0x0F == b
  {
  }

  /** What the checksum covers: a random byte, the pad size, the padding, and the data. */
  function Body(data: seq<Byte>, randomChar: Byte, padRandom: Byte, padding: seq<Byte>): seq<Byte>
    requires |padding| < 16
  {
    [randomChar, EncodedPad(padRandom, |padding|)] + padding + data
  }

  function Framed(data: seq<Byte>, randomChar: Byte, padRandom: Byte, padding: seq<Byte>): (d: seq<Byte>)
    requires |padding| < 16
    ensures |d| == 6 + |padding| + |data|
  {
    var body := Body(data, randomChar, padRandom, padding);
    CheckSumOf(body) + body
  }

  /** The data of a frame, if its checksum is right. */
  function Unframed(d: seq<Byte>): Option<seq<Byte>>
    requires |d| >= 6
  {
    var p := DecodedPad(d[5]);
    if |d| < 6 + p || d[..4] != CheckSumOf(d[4..]) then None else Some(d[6 + p..])
  }

  lemma FrameBack(data: seq<Byte>, randomChar: Byte, padRandom: Byte, padding: seq<Byte>)
    requires |padding| < 16
    ensures Unframed(Framed(data, randomChar, padRandom, padding)) == Some(data)
  {
    hide CheckSumOf, EncodedPad, DecodedPad;
    var body, d := Body(data, randomChar, padRandom, padding), Framed(data, randomChar, padRandom, padding);
    PadBack(padRandom, |padding|);
    assert d[4..] == body && d[..4] == CheckSumOf(body);
    assert d[5] == body[1];
    assert body[2 + |padding|..] == data;
    assert d[6 + |padding|..] == body[2 + |padding|..];
  }

  /** A frame with another byte in its checksum, or another last byte, is refused. */
  lemma TamperedFrame(data: seq<Byte>, randomChar: Byte, padRandom: Byte, padding: seq<Byte>, i: nat, c: Byte)
    requires |padding| < 16
    requires var d := Framed(data, randomChar, padRandom, padding);
             (i < 4 || (i == |d| - 1 && data != [])) && c != d[i]
    ensures Unframed(Framed(data, randomChar, padRandom, padding)[i := c]) == None
  {
    hide CheckSumOf, EncodedPad, DecodedPad;
    var body, d := Body(data, randomChar, padRandom, padding), Framed(data, randomChar, padRandom, padding);
    assert d[4..] == body && d[..4] == CheckSumOf(body);
    var e := d[i := c];
    if i < 4 {
      assert e[4..] == body && e[..4][i] != d[..4][i];
    } else {
      var k := |body| - 1;
      assert body == body[..k] + [body[k]] && e[4..] == body[..k] + [c] && e[..4] == d[..4];
      LastByteMatters(body[..k], body[k], c);
    }
  }

  /** Checksum, random byte, pad size in a half byte, padding and data, in this order. */
  lemma FrameLayout(data: seq<Byte>, randomChar: Byte, padRandom: Byte, padding: seq<Byte>)
    requires |padding| < 16
    ensures var d, p := Framed(data, randomChar, padRandom, padding), |padding|;
            && d[..4] == CheckSumOf(d[4..]) && d[4] == randomChar && d[6..6 + p] == padding && d[6 + p..] == data
            && (d[5] & 0x0F) as int == p && d[5] >> 4 == padRandom & 0x0F
  {
    hide CheckSumOf;
    var body, d := Body(data, randomChar, padRandom, padding), Framed(data, randomChar, padRandom, padding);
    PadBack(padRandom, |padding|);
    UpperHalf(padRandom, |padding| as Byte);
    hide EncodedPad;
    assert d[4..] == body && d[5] == body[1];
  }

  lemma UpperHalf(random: Byte, b: Byte)
    ensures b < 16 ==> ((random << 4) | b) >> 4 == random & 0x0F
  {
  }

  // ----- messages

  function Encoded(data: seq<Byte>, randomChar: Byte, padRandom: Byte,
                   padding: seq<Byte>, schedule: seq<Byte>): (d: seq<Byte>)
    requires |padding| == PaddingFor(|data|) && |schedule| == 176
    ensures |d| == 6 + |padding| + |data| && |d| % 16 == 0
  {
    Joined(Chained(BlocksOf(Framed(data, randomChar, padRandom, padding)), schedule))
  }

  /** The data of a message; None if its length is not that of a message, or the checksum is wrong. */
  function Decoded(d: seq<Byte>, schedule: seq<Byte>): Option<seq<Byte>>
    requires |schedule| == 176
  {
    if |d| < 16 || |d| % 16 != 0 then None else Unframed(Deciphered(d, schedule))
  }

  /** The framed message in the chained blocks. */
  function Deciphered(d: seq<Byte>, schedule: seq<Byte>): (f: seq<Byte>)
    requires |schedule| == 176 && |d| >= 16 && |d| % 16 == 0
    ensures |f| == |d|
  {
    Joined(Unchained(BlocksOf(d), schedule))
  }

  /** Decoding undoes encoding, for every key, length and random bytes. */
  lemma DecodeEncode(data: seq<Byte>, randomChar: Byte, padRandom: Byte, padding: seq<Byte>, schedule: seq<Byte>)
    requires |padding| == PaddingFor(|data|) && |schedule| == 176
    ensures Decoded(Encoded(data, randomChar, padRandom, padding, schedule), schedule) == Some(data)
  {
    hide Chained, Unchained, Joined, Framed, Unframed, BlocksOf;
    var f := Framed(data, randomChar, padRandom, padding);
    var c := Chained(BlocksOf(f), schedule);
    BlocksOfJoined(c);
    ChainBack(BlocksOf(f), schedule);
    BlocksOfJoined(BlocksOf(f));
    SameBlocks(Joined(BlocksOf(f)), f);
    FrameBack(data, randomChar, padRandom, padding);
  }
}

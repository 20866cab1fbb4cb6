/** Messages encrypted and decrypted in place, as the reliability layer does with its packets. */
module Encryptor {
  import opened Bits
  import opened AES
  import opened AESCipher
  import opened BlockChains
  import opened Unsigned

  class CheckSum {
    var r: nat
    var sum: nat

    ghost function State(): Sum
      reads this
    {
      Sum(r, sum)
    }

    constructor ()
      ensures State() == EMPTY_SUM
    {
      r, sum := 55665, 0;
    }

    method AddOne(value: Byte)
      modifies this
      ensures State() == AddByte(old(State()), value)
    {
      var cipher := value ^ ((r / 256 % 256) as Byte);
      r := ((cipher as int + r) * 52845 + 22719) % 0x1_0000;
      sum := (sum + cipher as int) % 0x1_0000_0000;
    }

    method Add(b: array<Byte>, at: nat, length: nat)
      requires at + length <= b.Length
      modifies this
      ensures State() == AddBytes(old(State()), b[at..at + length])
    {
      hide AddByte;
      for i := 0 to length
        invariant State() == AddBytes(old(State()), b[at..at + i])
      {
        ghost var d := b[at..at + i + 1];
        assert d[..|d| - 1] == b[at..at + i];
        AddOne(b[at + i]);
      }
    }

    method Get() returns (checkSum: nat)
      ensures checkSum == State().sum
    {
      checkSum := sum;
    }
  }

  // ----- chains in a buffer

  /** What replacing one block of a buffer means for the blocks of its first n bytes. */
  lemma BlockReplaced(d: seq<Byte>, n: nat, k: nat, b: Block)
    requires n % 16 == 0 && 16 * k + 16 <= n <= |d|
    ensures var e := Patched(d, 16 * k, b);
            BlocksOf(e[..n]) == BlocksOf(d[..n])[k := b] && e[n..] == d[n..]
    ensures BlockAt(d, 16 * k) == BlocksOf(d[..n])[k]
  {
    var e := Patched(d, 16 * k, b);
    assert e[..n] == Patched(d[..n], 16 * k, b);
    BlocksPatched(d[..n], k, b);
    SliceOfPrefix(d, n, 16 * k);
  }

  lemma SliceOfPrefix(d: seq<Byte>, n: nat, at: nat)
    requires at + 16 <= n <= |d|
    ensures BlockAt(d[..n], at) == BlockAt(d, at)
  {
  }

  /** The blocks behind k are done; the block l was ciphered last. */
  ghost predicate Chaining(b: seq<Block>, c: seq<Block>, k: nat, l: nat, schedule: seq<Byte>) {
    && |schedule| == 176 && k < |b| == |c| && l == (if k == |b| - 1 then 0 else k + 1)
    && c[0] == Encrypted(b[0], schedule) && c[1..k + 1] == b[1..k + 1]
    && ChainedTail(b[1..], c[0], schedule) == ChainedTail(b[1..k + 1], c[l], schedule) + c[k + 1..]
  }

  lemma ChainStarts(b: seq<Block>, schedule: seq<Byte>)
    requires |schedule| == 176 && b != []
    ensures Chaining(b, b[0 := Encrypted(b[0], schedule)], |b| - 1, 0, schedule)
  {
    hide Encrypted, ChainedTail;
    var c := b[0 := Encrypted(b[0], schedule)];
    assert b[1..|b|] == b[1..] && c[|b|..] == [];
  }

  lemma ChainStep(b: seq<Block>, c: seq<Block>, k: nat, l: nat, schedule: seq<Byte>)
    requires Chaining(b, c, k, l, schedule) && k > 0
    ensures Chaining(b, c[k := Encrypted(AddedKey(c[k], c[l]), schedule)], k - 1, k, schedule)
  {
    hide Encrypted, AddedKey;
    var e := Encrypted(AddedKey(c[k], c[l]), schedule);
    var c1 := c[k := e];
    var t := b[1..k + 1];
    assert c[k] == c[1..k + 1][k - 1] == t[k - 1] == b[k];
    assert t[..k - 1] == b[1..k];
    assert c1[k..] == [e] + c[k + 1..];
    forall i | 0 <= i < k - 1 ensures c1[1..k][i] == b[1..k][i] {
      assert c[1..k + 1][i] == t[i];
    }
    assert ChainedTail(t, c[l], schedule) == ChainedTail(t[..k - 1], e, schedule) + [e];
  }

  lemma ChainDone(b: seq<Block>, c: seq<Block>, l: nat, schedule: seq<Byte>)
    requires Chaining(b, c, 0, l, schedule)
    ensures c == Chained(b, schedule)
  {
    hide Encrypted;
    assert ChainedTail(b[1..1], c[l], schedule) == [];
    assert c == [c[0]] + c[1..];
  }

  /** Of a chain, the blocks from the second up to k have been taken out. */
  ghost predicate Unchaining(c: seq<Block>, b: seq<Block>, k: nat, schedule: seq<Byte>) {
    && |schedule| == 176 && 1 <= k <= |c| == |b| && b[0] == c[0]
    && (forall i :: 1 <= i < k ==> b[i] == UnchainedBlock(c, i, schedule))
    && forall i :: k <= i < |c| ==> b[i] == c[i]
  }

  lemma UnchainStarts(c: seq<Block>, schedule: seq<Byte>)
    requires |schedule| == 176 && c != []
    ensures Unchaining(c, c, 1, schedule)
  {
  }

  lemma UnchainStep(c: seq<Block>, b: seq<Block>, k: nat, schedule: seq<Byte>)
    requires Unchaining(c, b, k, schedule) && k < |c|
    ensures var other := if k == |c| - 1 then 0 else k + 1;
            Unchaining(c, b[k := AddedKey(Decrypted(b[k], schedule), b[other])], k + 1, schedule)
  {
    hide Decrypted, AddedKey;
  }

  lemma UnchainDone(c: seq<Block>, b: seq<Block>, schedule: seq<Byte>)
    requires Unchaining(c, b, |c|, schedule)
    ensures b[0 := Decrypted(b[0], schedule)] == Unchained(c, schedule)
  {
    hide Decrypted, AddedKey;
  }

  class DataBlockEncryptor {
    var keySet: bool
    const secretKeyAES128: AES128

    predicate Valid() {
      secretKeyAES128.Valid()
    }

    ghost function Schedule(): (s: seq<Byte>)
      requires Valid()
      reads secretKeyAES128.keySchedule
      ensures |s| == 176
    {
      secretKeyAES128.keySchedule[..]
    }

    constructor ()
      ensures Valid() && !keySet
    {
      secretKeyAES128 := new AES128();
      keySet := false;
    }

    method SetKey(key: seq<Byte>)
      requires Valid() && |key| == 16
      modifies this, secretKeyAES128.keySchedule
      ensures keySet && Schedule()[..16] == key && Scheduled(Schedule(), 44)
    {
      keySet := true;
      secretKeyAES128.SetKey(key);
    }

    /** Adds one block to another. */
    method XorBlock(m: array<Byte>, at: nat, other: nat)
      requires at + 16 <= m.Length && other + 16 <= m.Length && (at + 16 <= other || other + 16 <= at)
      modifies m
      ensures m[..] == Patched(old(m[..]), at, AddedKey(BlockAt(old(m[..]), at), BlockAt(old(m[..]), other)))
    {
      ghost var d := m[..];
      forall byteIndex | 0 <= byteIndex < 16 {
        m[at + byteIndex] := m[at + byteIndex] ^ m[other + byteIndex];
      }
      PatchedIs(d, at, AddedKey(BlockAt(d, at), BlockAt(d, other)), m[..]);
    }

    /** Ciphers the first block, and then the others from back to front. */
    method EncryptBlocks(output: array<Byte>, outputLength: nat)
      requires Valid() && output != secretKeyAES128.keySchedule
      requires 16 <= outputLength <= output.Length && outputLength % 16 == 0
      modifies output
      ensures BlocksOf(output[..outputLength]) == Chained(BlocksOf(old(output[..outputLength])), Schedule())
      ensures output[outputLength..] == old(output[outputLength..])
    {
      hide Encrypted, AddedKey, Chained, Chaining, BlocksOf, BlockAt, Patched;
      ghost var n, s, rest := outputLength, Schedule(), output[outputLength..];
      ghost var b := BlocksOf(output[..n]);
      ghost var d := output[..];
      secretKeyAES128.Encrypt16(output, 0);
      BlockReplaced(d, n, 0, Encrypted(BlockAt(d, 0), s));
      ChainStarts(b, s);
      ghost var k, l := |b| - 1, 0;
      var lastBlock := 0;
      var index := outputLength - 16;
      while index >= 16
        invariant index == 16 * k && lastBlock == 16 * l && k < |b| && 16 * |b| == n
        invariant Schedule() == s && output[n..] == rest
        invariant Chaining(b, BlocksOf(output[..n]), k, l, s) && l == (if k == |b| - 1 then 0 else k + 1)
        decreases index
      {
        ghost var d1 := output[..];
        ghost var c := BlocksOf(output[..n]);
        ghost var x := AddedKey(c[k], c[l]);
        XorBlock(output, index, lastBlock);
        BlockReplaced(d1, n, l, x);
        BlockReplaced(d1, n, k, x);
        ghost var d2 := output[..];
        secretKeyAES128.Encrypt16(output, index);
        BlockReplaced(d2, n, k, Encrypted(x, s));
        assert c[k := x][k := Encrypted(x, s)] == c[k := Encrypted(x, s)];
        ChainStep(b, c, k, l, s);
        lastBlock := index;
        index := index - 16;
        k, l := k - 1, k;
      }
      ChainDone(b, BlocksOf(output[..n]), l, s);
    }

    /** Unchains the blocks from the second on, and deciphers the first one last. */
    method DecryptBlocks(input: array<Byte>, inputLength: nat)
      requires Valid() && input != secretKeyAES128.keySchedule
      requires 16 <= inputLength <= input.Length && inputLength % 16 == 0
      modifies input
      ensures BlocksOf(input[..inputLength]) == Unchained(BlocksOf(old(input[..inputLength])), Schedule())
      ensures input[inputLength..] == old(input[inputLength..])
    {
      hide Decrypted, AddedKey, Unchained, Unchaining, BlocksOf, BlockAt, Patched;
      ghost var n, s, rest := inputLength, Schedule(), input[inputLength..];
      ghost var c := BlocksOf(input[..n]);
      UnchainStarts(c, s);
      ghost var k := 1;
      var index := 16;
      while index <= inputLength - 16
        invariant index == 16 * k && 1 <= k <= |c| && 16 * |c| == n
        invariant Schedule() == s && input[n..] == rest
        invariant Unchaining(c, BlocksOf(input[..n]), k, s)
      {
        ghost var d1 := input[..];
        ghost var b := BlocksOf(input[..n]);
        ghost var x := Decrypted(b[k], s);
        BlockReplaced(d1, n, k, x);
        secretKeyAES128.Decrypt16(input, index);
        ghost var d2 := input[..];
        ghost var other := if k == |c| - 1 then 0 else k + 1;
        BlockReplaced(d2, n, other, x);
        ghost var y := AddedKey(x, b[other]);
        BlockReplaced(d2, n, k, y);
        if index + 16 == inputLength {
          XorBlock(input, index, 0);
        } else {
          XorBlock(input, index, index + 16);
        }
        assert b[k := x][k := y] == b[k := y];
        UnchainStep(c, b, k, s);
        index := index + 16;
        k := k + 1;
      }
      ghost var d3 := input[..];
      ghost var b := BlocksOf(input[..n]);
      UnchainDone(c, b, s);
      BlockReplaced(d3, n, 0, Decrypted(b[0], s));
      secretKeyAES128.Decrypt16(input, 0);
    }

    /**
     * Frames and encrypts a message; input and output may be the same buffer.
     * The random bytes are, in order, for the random character, for the upper
     * half of the pad size, and for the padding.
     */
    method Encrypt(input: array<Byte>, inputLength: nat, output: array<Byte>, random: seq<Byte>)
      returns (outputLength: nat)
      requires Valid() && output != secretKeyAES128.keySchedule
      requires inputLength <= input.Length && inputLength + 6 + PaddingFor(inputLength) <= output.Length
      requires |random| >= 2 + PaddingFor(inputLength)
      modifies output
      ensures outputLength == inputLength + 6 + PaddingFor(inputLength) && outputLength % 16 == 0
      ensures output[..outputLength]
           == Encoded(old(input[..inputLength]), random[0], random[1], random[2..2 + PaddingFor(inputLength)],
                      Schedule())
      ensures output[outputLength..] == old(output[outputLength..])
    {
      hide *;
      ghost var s, data := Schedule(), input[..inputLength];
      outputLength := WriteFrame(input, inputLength, output, random);
      EncryptBlocks(output, outputLength);
      EncodedBlocks(data, random[0], random[1], random[2..2 + PaddingFor(inputLength)], s, output[..outputLength]);
    }

    /** The frame of a message: data first, in case it is overwritten, and the checksum last. */
    method WriteFrame(input: array<Byte>, inputLength: nat, output: array<Byte>, random: seq<Byte>)
      returns (outputLength: nat)
      requires inputLength <= input.Length && inputLength + 6 + PaddingFor(inputLength) <= output.Length
      requires |random| >= 2 + PaddingFor(inputLength)
      modifies output
      ensures outputLength == inputLength + 6 + PaddingFor(inputLength)
      ensures output[..outputLength]
           == Framed(old(input[..inputLength]), random[0], random[1], random[2..2 + PaddingFor(inputLength)])
      ensures output[outputLength..] == old(output[outputLength..])
    {
      hide EncodedPad, CheckSumOf, AddBytes, FourBytes, AddByte;
      var randomChar := random[0];
      var paddingBytes := 16 - ((inputLength + 6 - 1) % 16 + 1);
      var encodedPad := EncodedPad(random[1], paddingBytes);
      outputLength := inputLength + 6 + paddingBytes;
      ghost var data, d := input[..inputLength], output[..];
      MoveBytes(input, 0, output, 6 + paddingBytes, inputLength);
      ghost var d1 := output[..];
      WriteHead(output, randomChar, encodedPad, random[2..2 + paddingBytes]);
      ghost var d2 := output[..];
      BodyIs(d, d1, d2, data, randomChar, random[1], random[2..2 + paddingBytes]);
      WriteCheckSum(output, outputLength);
      FrameIs(d2, output[..], outputLength);
    }

    /** The random byte, the pad size and the padding. */
    method WriteHead(output: array<Byte>, randomChar: Byte, encodedPad: Byte, padding: seq<Byte>)
      requires 6 + |padding| <= output.Length
      modifies output
      ensures output[..] == old(output[..4]) + [randomChar, encodedPad] + padding + old(output[6 + |padding|..])
    {
      output[4] := randomChar;
      output[5] := encodedPad;
      forall index | 0 <= index < |padding| {
        output[6 + index] := padding[index];
      }
    }

    method WriteCheckSum(output: array<Byte>, outputLength: nat)
      requires 4 <= outputLength <= output.Length
      modifies output
      ensures output[..4] == CheckSumOf(old(output[4..outputLength])) && output[4..] == old(output[4..])
      ensures output[4..outputLength] == old(output[4..outputLength])
    {
      hide AddBytes, CheckSumOf, FourBytes;
      CheckSumIs(output[4..outputLength]);
      assert output[4..4 + (outputLength - 4)] == output[4..outputLength];
      var checkSumCalculator := new CheckSum();
      checkSumCalculator.Add(output, 4, outputLength - 4);
      var checkSum := checkSumCalculator.Get();
      var bytes := FourBytes(checkSum);
      output[0], output[1], output[2], output[3] := bytes[0], bytes[1], bytes[2], bytes[3];
      assert output[..4] == bytes;
    }

    /** memmove and memcpy: the source is read as it was before. */
    method MoveBytes(source: array<Byte>, from: nat, target: array<Byte>, at: nat, n: nat)
      requires from + n <= source.Length && at + n <= target.Length
      modifies target
      ensures target[..] == old(target[..at]) + old(source[from..from + n]) + old(target[at + n..])
    {
      forall i | 0 <= i < n {
        target[at + i] := source[from + i];
      }
    }

    /** Decrypts a message in place and copies its data to the output, which may be the same buffer. */
    method Decrypt(input: array<Byte>, inputLength: nat, output: array<Byte>) returns (ok: bool, outputLength: int)
      requires Valid() && input != secretKeyAES128.keySchedule && output != secretKeyAES128.keySchedule
      requires inputLength <= input.Length && inputLength <= output.Length
      modifies input, output
      ensures var data := Decoded(old(input[..inputLength]), Schedule());
              && ok == data.Some?
              && (ok ==> outputLength == |data.value| <= inputLength && output[..outputLength] == data.value)
      ensures var d, rest := old(input[..inputLength]), old(input[inputLength..]);
              var whole := inputLength >= 16 && inputLength % 16 == 0;
              var n := if ok then outputLength else 0;
              var f := (if whole then Deciphered(d, Schedule()) else d) + rest;
              && |f| == input.Length && 0 <= n <= inputLength
              && if input == output then output[n..] == f[n..] else input[..] == f && output[n..] == old(output[n..])
    {
      hide CheckSumOf, DecodedPad, Deciphered, AddBytes, FourBytes;
      outputLength := 0;
      if inputLength < 16 || inputLength % 16 != 0 {
        return false, 0;
      }
      ghost var f := DecryptFrame(input, inputLength);
      ghost var g := input[..];
      var encodedPad := input[5];
      var paddingBytes := DecodedPad(encodedPad);
      outputLength := inputLength - 6 - paddingBytes;
      FrameIn(g, f, paddingBytes);
      var checkSumCalculator := new CheckSum();
      checkSumCalculator.Add(input, 4, inputLength - 4);
      var checkSum := checkSumCalculator.Get();
      CheckSumIs(f[4..]);
      if input[..4] != FourBytes(checkSum) || outputLength < 0 {
        return false, outputLength;
      }
      MoveBytes(input, 6 + paddingBytes, output, 0, outputLength);
      ok := true;
    }

    /** Deciphers and unchains a message in place. */
    method DecryptFrame(input: array<Byte>, inputLength: nat) returns (ghost f: seq<Byte>)
      requires Valid() && input != secretKeyAES128.keySchedule
      requires 16 <= inputLength <= input.Length && inputLength % 16 == 0
      modifies input
      ensures f == Deciphered(old(input[..inputLength]), Schedule()) && input[..] == f + old(input[inputLength..])
      ensures Decoded(old(input[..inputLength]), Schedule()) == Unframed(f)
    {
      hide Unchained, BlocksOf, Decoded, Deciphered, Unframed;
      ghost var d := input[..inputLength];
      DecryptBlocks(input, inputLength);
      f := input[..inputLength];
      DecodedBlocks(d, Schedule(), f);
      assert input[..] == f + input[inputLength..];
    }
  }

  /** The parts of a frame at the front of a buffer. */
  lemma FrameIn(g: seq<Byte>, f: seq<Byte>, p: nat)
    requires 16 <= |f| && f <= g
    ensures f[5] == g[5] && f[..4] == g[..4] && f[4..] == g[4..4 + (|f| - 4)]
    ensures 6 + p <= |f| ==> f[6 + p..] == g[6 + p..6 + p + (|f| - 6 - p)]
  {
  }

  lemma CheckSumIs(d: seq<Byte>)
    ensures CheckSumOf(d) == FourBytes(AddBytes(EMPTY_SUM, d).sum)
  {
  }

  /** What stands behind the checksum once the data has been moved and the head written. */
  lemma BodyIs(d: seq<Byte>, d1: seq<Byte>, d2: seq<Byte>,
               data: seq<Byte>, randomChar: Byte, padRandom: Byte, padding: seq<Byte>)
    requires |padding| < 16 && 6 + |padding| + |data| <= |d|
    requires d1 == d[..6 + |padding|] + data + d[6 + |padding| + |data|..]
    requires d2 == d1[..4] + [randomChar, EncodedPad(padRandom, |padding|)] + padding + d1[6 + |padding|..]
    ensures |d2| == |d| && d2[4..6 + |padding| + |data|] == Body(data, randomChar, padRandom, padding)
    ensures d2[6 + |padding| + |data|..] == d[6 + |padding| + |data|..]
  {
    hide EncodedPad;
    var rest := d[6 + |padding| + |data|..];
    assert d1[6 + |padding|..] == data + rest;
    assert d2 == d1[..4] + Body(data, randomChar, padRandom, padding) + rest;
  }

  lemma FrameIs(d: seq<Byte>, e: seq<Byte>, n: nat)
    requires 4 <= n <= |d| == |e| && e[4..] == d[4..] && e[..4] == CheckSumOf(d[4..n])
    ensures e[..n] == CheckSumOf(d[4..n]) + d[4..n] && e[n..] == d[n..]
  {
    hide CheckSumOf;
    assert e[4..n] == e[4..][..n - 4] && d[4..n] == d[4..][..n - 4];
    assert e[..n] == e[..4] + e[4..n];
    assert e[n..] == e[4..][n - 4..] && d[n..] == d[4..][n - 4..];
  }

  /** A buffer with the blocks of a chained frame is the encoded message. */
  lemma EncodedBlocks(data: seq<Byte>, randomChar: Byte, padRandom: Byte, padding: seq<Byte>,
                      schedule: seq<Byte>, d: seq<Byte>)
    requires |padding| == PaddingFor(|data|) && |schedule| == 176 && |d| == 6 + |padding| + |data|
    requires BlocksOf(d) == Chained(BlocksOf(Framed(data, randomChar, padRandom, padding)), schedule)
    ensures d == Encoded(data, randomChar, padRandom, padding, schedule)
  {
    hide Chained, BlocksOf, Joined, Framed;
    var c := Chained(BlocksOf(Framed(data, randomChar, padRandom, padding)), schedule);
    BlocksOfJoined(c);
    SameBlocks(d, Joined(c));
  }

  /** The unchained blocks in a buffer are those of the frame. */
  lemma DecodedBlocks(d: seq<Byte>, schedule: seq<Byte>, f: seq<Byte>)
    requires |schedule| == 176 && |d| == |f| >= 16 && |d| % 16 == 0 && BlocksOf(f) == Unchained(BlocksOf(d), schedule)
    ensures Decoded(d, schedule) == Unframed(f) && Deciphered(d, schedule) == f
  {
    hide Unchained, BlocksOf, Joined, Unframed;
    BlocksOfJoined(BlocksOf(f));
    SameBlocks(Joined(BlocksOf(f)), f);
  }
}

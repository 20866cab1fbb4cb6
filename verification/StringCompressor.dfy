/**
 * Strings in a bit stream: the number of bits, compressed, and the Huffman
 * code of the characters, which ends on a whole byte.
 */
module StringCompression {
  import opened Bits
  import opened BitLayout
  import opened BitStreams
  import opened CompressedIntegers
  import opened CStrings
  import opened HuffmanCodes
  import opened HuffmanEncoding
  import opened HuffmanNodes
  import opened HuffmanTrees
  import opened Options
  import opened PrefixCodes
  import opened Unsigned

  /** The bit length is kept in 16 bits, and no more bits are written than it says. */
  const LENGTH_RANGE := 0x1_0000

  /** The characters of a string that are encoded; one place is for the terminating zero. */
  function Cut(s: seq<Byte>, maxCharsToWrite: int): (c: seq<Byte>)
    ensures c <= s && |c| ==
                        if |s| < maxCharsToWrite then |s| else if maxCharsToWrite > 0 then maxCharsToWrite - 1 else 0
  {
    if |s| < maxCharsToWrite then s else if maxCharsToWrite > 0 then s[..maxCharsToWrite - 1] else []
  }

  ghost function Sent(bits: seq<bool>): seq<bool> {
    Compressed(ShortBytes(|bits| % LENGTH_RANGE), true) + bits[..|bits| % LENGTH_RANGE]
  }

  datatype Taken = Nothing | Taken(bits: seq<bool>, used: nat)

  /** The code bits at the front of a stream, and how many bits they take there. */
  ghost function Received(unread: seq<bool>): (t: Taken)
    ensures t.Taken? ==> t.used <= |unread|
  {
    var e := Expand(unread, 2, true);
    if e.Short? || |unread| - e.used < ShortOf(e.value) then Nothing
    else Taken(unread[e.used..e.used + ShortOf(e.value)], e.used + ShortOf(e.value))
  }

  lemma ReceivedSent(bits: seq<bool>, rest: seq<bool>)
    ensures Received(Sent(bits) + rest) == Taken(bits[..|bits| % LENGTH_RANGE], |Sent(bits)|)
  {
    hide Compressed, Expand, ShortBytes, ShortOf;
    var n := |bits| % LENGTH_RANGE;
    var c := Compressed(ShortBytes(n), true);
    ShortBack(n);
    CompressedRoundTrip(ShortBytes(n), true, bits[..n] + rest);
    var d := Sent(bits) + rest;
    assert d == c + (bits[..n] + rest);
    assert d[|c|..|c| + n] == bits[..n];
  }

  lemma SmallBytes(b: Byte)
    ensures (ValueOf(b) < 16 <==> b < 16) && (ValueOf(b) == 0 <==> b == 0)
  {
  }

  /** A code of fewer than 16 bits is announced with 6 bits, one of fewer than 256 with 10, others with 17. */
  lemma SentSize(bits: seq<bool>)
    ensures var n := |bits| % LENGTH_RANGE; |Sent(bits)| == n + if n < 16 then 6 else if n < 256 then 10 else 17
  {
    hide Compressed, LowByte, ValueOf;
    var n := |bits| % LENGTH_RANGE;
    var low, high := LowByte(n), LowByte(n / 0x100);
    assert ShortBytes(n) == [low, high];
    ByteBack(n);
    ByteBack(n / 0x100);
    SmallBytes(low);
    SmallBytes(high);
    if n < 256 {
      assert [low, high] == [low] + Repeated(0, 1);
      CompressedSize([low], 1, true);
    } else {
      assert [low, high] == [low, high] + Repeated(0, 0);
      CompressedSize([low, high], 0, true);
    }
  }

  /** The table holds the code words of the tree for some frequencies. */
  ghost predicate CodeOf(frequencyTable: seq<nat>, table: seq<Word>)
    requires |frequencyTable| == SYMBOLS
  {
    |table| == SYMBOLS && Coded(HuffmanTree(frequencyTable), [], table)
  }

  /** The string that the tree for some frequencies makes of some bits. */
  ghost function Decompressed(frequencyTable: seq<nat>, bits: seq<bool>): seq<Byte>
    requires |frequencyTable| == SYMBOLS
  {
    NodeTree(frequencyTable);
    var t := HuffmanTree(frequencyTable);
    BytesOf(Decode(t, t, bits).0)
  }

  lemma CompressedBack(frequencyTable: seq<nat>, table: seq<Word>, s: seq<Byte>, pad: Word, v: nat)
    requires |frequencyTable| == SYMBOLS && CodeOf(frequencyTable, table)
    requires v < SYMBOLS && pad < table[v]
    ensures Decompressed(frequencyTable, Encoded(table, Symbols(s)) + pad) == s
  {
    hide HuffmanTree, Coded, Decode, Values, Encoded, Iota, BytesOf;
    NodeTree(frequencyTable);
    AllSymbols(frequencyTable);
    DecodesItsCode(HuffmanTree(frequencyTable), table, s, pad, v);
  }

  /** Bits cut off inside the code of a string make a shorter string. */
  lemma {:induction false} CutOff(frequencyTable: seq<nat>, table: seq<Word>, s: seq<Byte>, n: nat)
    requires |frequencyTable| == SYMBOLS && CodeOf(frequencyTable, table)
    requires n < |Encoded(table, Symbols(s))|
    ensures Decompressed(frequencyTable, Encoded(table, Symbols(s))[..n]) < s
  {
    hide CodeOf, Decompressed, Encoded;
    var none: Word := [];
    NothingEncoded(table, none);
    assert |table| == SYMBOLS by { TableSize(frequencyTable, table); }
    var k, code := |s| - 1, Encoded(table, Symbols(s));
    assert s != [];
    var front := s[..k];
    assert s[..k + 1] == s;
    EncodedPush(table, s, k, none);
    var done := Encoded(table, Symbols(front));
    assert none + code == code && none + done == done;
    if n < |done| {
      CutOff(frequencyTable, table, front, n);
      assert code[..n] == done[..n];
    } else {
      var pad := table[s[k] as int][..n - |done|];
      assert code[..n] == done + pad;
      CompressedBack(frequencyTable, table, front, pad, s[k] as int);
    }
  }

  lemma TableSize(frequencyTable: seq<nat>, table: seq<Word>)
    requires |frequencyTable| == SYMBOLS && CodeOf(frequencyTable, table)
    ensures |table| == SYMBOLS
  {
  }

  /**
   * A string sent comes back if its code takes less than 65536 bits, and
   * otherwise only a part of it does; what follows in the stream stays there.
   */
  lemma StringComesBack(frequencyTable: seq<nat>, table: seq<Word>, s: seq<Byte>, pad: Word, v: nat, rest: seq<bool>)
    requires |frequencyTable| == SYMBOLS && CodeOf(frequencyTable, table)
    requires v < SYMBOLS && pad < table[v] && |pad| < 8
    ensures var bits := Encoded(table, Symbols(s)) + pad;
            var r := Received(Sent(bits) + rest);
            && r.Taken? && r.used == |Sent(bits)| && Decompressed(frequencyTable, r.bits) <= s
            && (Decompressed(frequencyTable, r.bits) == s <==> |bits| < LENGTH_RANGE)
  {
    hide CodeOf, Decompressed, Encoded, Sent, Received;
    assert |table| == SYMBOLS by { TableSize(frequencyTable, table); }
    var code := Encoded(table, Symbols(s));
    var bits := code + pad;
    ReceivedSent(bits, rest);
    var n := |bits| % LENGTH_RANGE;
    if |bits| < LENGTH_RANGE {
      assert bits[..n] == bits;
      CompressedBack(frequencyTable, table, s, pad, v);
    } else {
      Wraps(|bits|, |code|);
      assert bits[..n] == code[..n];
      CutOff(frequencyTable, table, s, n);
    }
  }

  /** A string of 65536 characters or more, whatever they are, does not come back whole. */
  lemma LongStringIsCut(frequencyTable: seq<nat>, table: seq<Word>, s: seq<Byte>, pad: Word, v: nat, rest: seq<bool>)
    requires |frequencyTable| == SYMBOLS && CodeOf(frequencyTable, table)
    requires v < SYMBOLS && pad < table[v] && |pad| < 8 && |s| >= LENGTH_RANGE
    ensures var r := Received(Sent(Encoded(table, Symbols(s)) + pad) + rest);
            r.Taken? && Decompressed(frequencyTable, r.bits) < s
  {
    hide CodeOf, Decompressed, Encoded, Sent, Received;
    assert |table| == SYMBOLS by { TableSize(frequencyTable, table); }
    CodeIsLonger(frequencyTable, table, s);
    StringComesBack(frequencyTable, table, s, pad, v, rest);
  }

  /** Every character takes at least one bit. */
  lemma {:induction false} CodeIsLonger(frequencyTable: seq<nat>, table: seq<Word>, s: seq<Byte>)
    requires |frequencyTable| == |table| == SYMBOLS && CodeOf(frequencyTable, table)
    ensures |s| <= |Encoded(table, Symbols(s))|
  {
    hide CodeOf, Encoded;
    if s != [] {
      var none: Word, k := [], |s| - 1;
      CodeIsLonger(frequencyTable, table, s[..k]);
      EncodedPush(table, s, k, none);
      assert s[..k + 1] == s;
      WordNotEmpty(frequencyTable, table, s[k] as int);
    }
  }

  lemma WordNotEmpty(frequencyTable: seq<nat>, table: seq<Word>, v: nat)
    requires |frequencyTable| == |table| == SYMBOLS && CodeOf(frequencyTable, table) && v < SYMBOLS
    ensures table[v] != []
  {
    var other := if v == 0 then 1 else 0;
    HuffmanPrefixFree(frequencyTable, table);
    assert !(table[v] <= table[other]);
  }

  lemma Wraps(n: nat, m: nat)
    requires LENGTH_RANGE <= n < m + 8
    ensures n % LENGTH_RANGE < m
  {
  }

  /** The output of a decoder: as much of the string as fits, and a terminating zero. */
  ghost predicate Terminates(output: seq<Byte>, s: seq<Byte>, max: nat)
    requires 1 <= max <= |output|
  {
    Terminated(Cut(s, max)) <= output
  }

  /** The string in the output is the string sent, cut where either side cuts it. */
  lemma StringArrives(frequencyTable: seq<nat>, table: seq<Word>, s: CString, maxSent: int, pad: Word, v: nat,
                      rest: seq<bool>, output: seq<Byte>, max: nat)
    requires |frequencyTable| == SYMBOLS && CodeOf(frequencyTable, table)
    requires v < SYMBOLS && pad < table[v] && |pad| < 8 && 1 <= max <= |output|
    requires var r := Received(Sent(Encoded(table, Symbols(Cut(s, maxSent))) + pad) + rest);
             r.Taken? ==> Terminates(output, Decompressed(frequencyTable, r.bits), max)
    ensures StringIn(output) <= s
    ensures |Encoded(table, Symbols(Cut(s, maxSent))) + pad| < LENGTH_RANGE ==>
              StringIn(output) == Cut(Cut(s, maxSent), max)
  {
    hide CodeOf, Decompressed, Encoded, Sent, Received;
    assert |table| == SYMBOLS by { TableSize(frequencyTable, table); }
    var chars := Cut(s, maxSent);
    StringComesBack(frequencyTable, table, chars, pad, v, rest);
    var r := Received(Sent(Encoded(table, Symbols(chars)) + pad) + rest);
    var back := Cut(Decompressed(frequencyTable, r.bits), max);
    hide StringIn;
    assert back <= s;
    NoZeroInside(s, back);
    StringAtFront(back, output);
  }

  lemma StringAtFront(back: CString, output: seq<Byte>)
    requires Terminated(back) <= output
    ensures StringIn(output) == back
  {
    StringBack(back, output[|back| + 1..]);
    assert output == Terminated(back) + output[|back| + 1..];
  }

  lemma NoZeroInside(s: CString, b: seq<Byte>)
    requires b <= s
    ensures 0 !in b
  {
  }

  /** The zero put behind what was written. */
  lemma ZeroPut(before: seq<Byte>, s: seq<Byte>, max: nat, k: nat)
    requires 1 <= max <= |before| && k == if |s| < max then |s| else max - 1
    ensures var n := if |s| < max then |s| else max;
            Terminates((s[..n] + before[n..])[k := 0], s, max)
  {
    var n := if |s| < max then |s| else max;
    var o := (s[..n] + before[n..])[k := 0];
    assert o[..k + 1] == s[..k] + [0];
  }

  lemma WholePayload(d: seq<Byte>, n: nat)
    requires n % 8 == 0 && n <= 8 * |d|
    ensures Payload(d, n, true) == Flatten(d)[..n]
  {
    hide Payload, Flatten;
    var k := n / 8;
    WholeBytes(d, k, true);
    FlattenAppend(d[..k], d[k..]);
    assert d == d[..k] + d[k..];
  }

  lemma CodedPayload(coded: BitStream, n: nat)
    requires coded.Valid() && coded.numberOfBitsUsed % 8 == 0 && n % 8 == 0 && n <= coded.numberOfBitsUsed
    ensures n <= 8 * |coded.Image()| && Payload(coded.Image(), n, true) == coded.Contents()[..n]
  {
    hide BitStream.Valid, Payload, Flatten;
    WholePayload(coded.Image(), n);
  }

  /** The length of some whole bytes of code and as many bits of it as the length says. */
  method Send(coded: BitStream, output: BitStream)
    requires coded.Valid() && output.Valid() && coded != output && coded.data != output.data
    requires coded.numberOfBitsUsed % 8 == 0
    modifies output, output.data
    ensures output.Valid() && (output.data == old(output.data) || fresh(output.data))
    ensures output.readOffset == old(output.readOffset)
    ensures output.Contents() == old(output.Contents()) + Sent(old(coded.Contents()))
  {
    hide BitStream.Valid, BitStream.Contents, Payload, Flatten, Compressed, ShortBytes;
    ghost var before, bits := output.Contents(), coded.Contents();
    var stringBitLength := coded.numberOfBitsUsed % LENGTH_RANGE;
    var data := coded.data[..BytesFor(coded.numberOfBitsUsed)];
    CodedPayload(coded, stringBitLength);
    var length := ShortBytes(stringBitLength);
    WriteCompressed(output, length, 16, true);
    assert length[..2] == length;
    output.WriteBits(data, stringBitLength, true);
  }

  /** The part of EncodeString behind the choice of tree and characters. */
  method EncodeChars(tree: HuffmanEncodingTree, chars: seq<Byte>, output: BitStream)
    returns (ghost pad: Word, ghost v: nat)
    requires tree.Valid() && output.Valid()
    modifies output, output.data
    ensures tree.Valid() && TreeOf(tree.shape) == old(TreeOf(tree.shape))
    ensures output.Valid() && (output.data == old(output.data) || fresh(output.data))
    ensures output.readOffset == old(output.readOffset)
    ensures v < SYMBOLS && pad < tree.table[v] && |pad| < 8
    ensures output.Contents() == old(output.Contents()) + Sent(Encoded(tree.table, Symbols(chars)) + pad)
  {
    hide Linked, TreeOf, Values, Coded, Encodes, Iota, Encoded, Sent, BitStream.Valid, Flatten;
    NodesAllocated(tree.shape);
    var encodedBitStream := new BitStream(32);
    pad, v := tree.EncodeArray(chars, encodedBitStream);
    var none: Word := [];
    NothingEncoded(tree.table, none);
    ghost var code := Encoded(tree.table, Symbols(chars));
    assert encodedBitStream.Contents() == none + code + pad == code + pad;
    Send(encodedBitStream, output);
    StillValid(tree);
  }

  lemma TreeCode(tree: HuffmanEncodingTree, frequencyTable: seq<nat>)
    requires |frequencyTable| == SYMBOLS && tree.Valid() && TreeOf(tree.shape) == HuffmanTree(frequencyTable)
    ensures CodeOf(frequencyTable, tree.table)
  {
    hide HuffmanTree, TreeOf, Linked, Values, Coded, Encodes, Iota;
  }

  /** The part of DecodeString behind the choice of the tree. */
  method DecodeChars(tree: HuffmanEncodingTree, output: array<Byte>, maxCharsToWrite: nat, input: BitStream)
    returns (ok: bool)
    requires tree.Valid() && input.Valid() && output != input.data
    requires 1 <= maxCharsToWrite <= output.Length
    modifies input`readOffset, output
    ensures tree.Valid() && input.Valid() && input.Contents() == old(input.Contents())
    ensures var r := Received(old(input.Unread()));
            && ok == r.Taken?
            && (ok ==> input.readOffset == old(input.readOffset) + r.used)
            && (ok ==> var t := TreeOf(tree.shape);
                       t.Node? && Terminates(output[..], BytesOf(Decode(t, t, r.bits).0), maxCharsToWrite))
            && (!ok ==> output[..] == old(output[..]))
  {
    hide Linked, TreeOf, Values, Coded, Encodes, Iota, Decode, Expand, Flatten, Holds, BytesFor, ShortOf,
         Terminates, BytesOf;
    NodesAllocated(tree.shape);
    ghost var unread := input.Unread();
    var length := new Byte[2];
    ok := ReadCompressed(input, length, 16, true);
    StillValid(tree);
    if !ok {
      return;
    }
    var stringBitLength := ShortOf(length[..2]);
    assert length[..2] == Expand(unread, 2, true).value;
    if input.numberOfBitsUsed - input.readOffset < stringBitLength {
      return false;
    }
    ghost var before, bits := output[..], input.Contents()[input.readOffset..input.readOffset + stringBitLength];
    assert bits == Received(unread).bits;
    var bytesInStream := tree.DecodeArray(input, stringBitLength, maxCharsToWrite, output);
    ghost var t := TreeOf(tree.shape);
    ghost var s := BytesOf(Decode(t, t, bits).0);
    var k := if bytesInStream < maxCharsToWrite then bytesInStream else maxCharsToWrite - 1;
    ZeroPut(before, s, maxCharsToWrite, k);
    label decoded:
    ghost var written := output[..];
    output[k] := 0;
    assert output[..] == written[k := 0];
    StillValid@decoded(tree);
  }

  predicate Usable(frequencyTable: seq<nat>) {
    |frequencyTable| == SYMBOLS && forall i :: 0 <= i < SYMBOLS ==> frequencyTable[i] < WEIGHT_RANGE
  }

  function Occurrences(d: seq<Byte>, b: Byte): nat {
    if d == [] then 0 else (if d[0] == b then 1 else 0) + Occurrences(d[1..], b)
  }

  /** How often each byte occurs. */
  function Frequencies(d: seq<Byte>): (f: seq<nat>)
    ensures |f| == SYMBOLS
  {
    seq(SYMBOLS, v requires 0 <= v < SYMBOLS => Occurrences(d, LowByte(v)))
  }

  /** What is counted instead: the byte behind the input, once. */
  function CountedAfter(d: seq<Byte>, n: nat): (f: seq<nat>)
    requires n < |d|
    ensures Usable(f)
  {
    var zeros := seq(SYMBOLS, _ => 0);
    zeros[d[n] as nat := 1]
  }

  lemma CountsOf(d: seq<Byte>, n: nat, b: Byte)
    requires n < |d|
    ensures Frequencies(d[..n])[b as nat] == Occurrences(d[..n], b)
    ensures CountedAfter(d, n)[b as nat] == if b == d[n] then 1 else 0
  {
    hide LowByte;
    ByteAndBack(b);
    ByteAndBack(d[n]);
  }

  lemma FirstTwoOccur(s: seq<Byte>)
    requires s != []
    ensures Occurrences(s, s[0]) > 0
    ensures |s| > 1 ==> Occurrences(s, s[1]) > 0 && (s[0] == s[1] ==> Occurrences(s, s[0]) > 1)
    ensures |s| == 1 ==> forall b :: Occurrences(s, b) == if b == s[0] then 1 else 0
  {
    if |s| > 1 {
      var r := s[1..];
      assert r[0] == s[1];
      assert Occurrences(r, r[0]) > 0;
    }
  }

  /** The count is right for a single byte with its like behind it, and for nothing else. */
  lemma CountedAfterIsRight(d: seq<Byte>, n: nat)
    requires 0 < n < |d|
    ensures CountedAfter(d, n) == Frequencies(d[..n]) <==> n == 1 && d[0] == d[1]
  {
    hide LowByte, CountedAfter, Frequencies;
    var f, g, s := CountedAfter(d, n), Frequencies(d[..n]), d[..n];
    CountsOf(d, n, d[0]);
    FirstTwoOccur(s);
    if n > 1 {
      CountsOf(d, n, d[1]);
    }
    if n == 1 && d[0] == d[1] {
      forall v | 0 <= v < SYMBOLS
        ensures f[v] == g[v]
      {
        SymbolBack(v);
        CountsOf(d, n, LowByte(v));
      }
    }
  }

  lemma SymbolBack(v: nat)
    requires v < SYMBOLS
    ensures LowByte(v) as nat == v
  {
    SmallByte(v);
    Back(v);
  }

  class StringCompressor {
    const englishCharacterFrequencies: seq<nat>
    var huffmanEncodingTree: HuffmanEncodingTree?
    ghost var frequencyTable: seq<nat>

    ghost function Footprint(): set<object>
      reads this, huffmanEncodingTree
    {
      if huffmanEncodingTree == null then {} else {huffmanEncodingTree} + Nodes(huffmanEncodingTree.shape)
    }

    /** The tree, once there is one, is the one for the frequency table; the first one is for English. */
    ghost predicate Valid()
      reads this, Footprint()
    {
      && Usable(englishCharacterFrequencies) && Usable(frequencyTable)
      && if huffmanEncodingTree == null then frequencyTable == englishCharacterFrequencies
         else huffmanEncodingTree.Valid() && TreeOf(huffmanEncodingTree.shape) == HuffmanTree(frequencyTable)
    }

    constructor (englishCharacterFrequencies: seq<nat>)
      requires Usable(englishCharacterFrequencies)
      ensures Valid() && frequencyTable == englishCharacterFrequencies == this.englishCharacterFrequencies
    {
      this.englishCharacterFrequencies := englishCharacterFrequencies;
      frequencyTable := englishCharacterFrequencies;
      huffmanEncodingTree := null;
    }

    method GenerateHuffmanEncodingTree()
      requires Usable(englishCharacterFrequencies)
      modifies this
      ensures Valid() && huffmanEncodingTree != null && fresh(huffmanEncodingTree)
      ensures frequencyTable == englishCharacterFrequencies
    {
      hide HuffmanTree;
      huffmanEncodingTree := new HuffmanEncodingTree(englishCharacterFrequencies);
      frequencyTable := englishCharacterFrequencies;
    }

    /** The counting loop runs over an empty statement, so only the byte behind the input is counted. */
    method GenerateTreeFromStrings(input: seq<Byte>, inputLength: nat)
      requires Valid() && inputLength < |input|
      modifies this
      ensures Valid()
      ensures frequencyTable == if inputLength == 0 then old(frequencyTable) else CountedAfter(input, inputLength)
      ensures inputLength == 0 ==> huffmanEncodingTree == old(huffmanEncodingTree)
      ensures inputLength > 0 ==> huffmanEncodingTree != null && fresh(huffmanEncodingTree)
    {
      hide HuffmanTree;
      if inputLength == 0 {
        return;
      }
      var counts := CountedAfter(input, inputLength);
      huffmanEncodingTree := new HuffmanEncodingTree(counts);
      frequencyTable := counts;
    }

    method EncodeString(input: Option<CString>, maxCharsToWrite: int, output: BitStream)
      returns (ghost table: seq<Word>, ghost pad: Word, ghost v: nat)
      requires Valid() && output.Valid()
      modifies this, output, output.data
      ensures Valid() && output.Valid() && (output.data == old(output.data) || fresh(output.data))
      ensures frequencyTable == old(frequencyTable) && output.readOffset == old(output.readOffset)
      ensures input.None? ==> output.Contents() == old(output.Contents())
      ensures input.Some? ==>
              && CodeOf(frequencyTable, table) && v < SYMBOLS && pad < table[v] && |pad| < 8
              && output.Contents()
              == old(output.Contents()) + Sent(Encoded(table, Symbols(Cut(input.value, maxCharsToWrite))) + pad)
    {
      hide Coded, Values, Encoded, Iota, HuffmanTree, HuffmanEncodingTree.Valid,
           BitStream.Valid, BitStream.Contents, Linked, TreeOf;
      table, pad, v := [], [], 0;
      if input.None? {
        return;
      }
      if huffmanEncodingTree == null {
        GenerateHuffmanEncodingTree();
      }
      var tree: HuffmanEncodingTree := huffmanEncodingTree;
      table := tree.table;
      TreeCode(tree, frequencyTable);
      pad, v := EncodeChars(tree, Cut(input.value, maxCharsToWrite), output);
    }

    /** Whether there is a string, which then is in the output; the stream is left behind it. */
    method DecodeString(output: array<Byte>, maxCharsToWrite: nat, input: BitStream) returns (ok: bool)
      requires Valid() && input.Valid() && output != input.data
      requires 1 <= maxCharsToWrite <= output.Length
      modifies this, input`readOffset, output
      ensures Valid() && input.Valid() && input.Contents() == old(input.Contents())
      ensures frequencyTable == old(frequencyTable)
      ensures var r := Received(old(input.Unread()));
              && ok == r.Taken?
              && (ok ==> input.readOffset == old(input.readOffset) + r.used)
              && (ok ==> Terminates(output[..], Decompressed(frequencyTable, r.bits), maxCharsToWrite))
              && (!ok ==> output[..] == old(output[..])[0 := 0])
    {
      hide Coded, Values, HuffmanTree, HuffmanEncodingTree.Valid, BitStream.Valid, BitStream.Contents, Linked, TreeOf;
      hide Expand, ShortOf, Decode, Terminates;
      ghost var unread := input.Unread();
      if huffmanEncodingTree == null {
        GenerateHuffmanEncodingTree();
      }
      var tree: HuffmanEncodingTree := huffmanEncodingTree;
      NodesAllocated(tree.shape);
      label generated:
      output[0] := 0;
      StillValid@generated(tree);
      ok := DecodeChars(tree, output, maxCharsToWrite, input);
    }
  }
}

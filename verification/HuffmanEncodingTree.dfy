/**
 * Huffman compression over a bit stream: the tree and its code table are
 * generated from 256 frequencies; messages are encoded with a padding to a
 * whole byte and decoded by walking the tree.
 */
module HuffmanEncoding {
  import opened PowerOfTwo
  import opened Bits
  import opened Unsigned
  import opened BitLayout
  import opened BitStreams
  import opened PrefixCodes
  import opened HuffmanTrees
  import opened HuffmanCodes
  import opened HuffmanNodes

  const SYMBOLS := 256

  datatype CharacterEncoding = CharacterEncoding(encoding: seq<Byte>, bitLength: nat)

  // ----- paths

  /** The way from the root of the shape to one of its nodes. */
  ghost function PathOf(s: Shape, n: HuffmanNode): Word
    requires n in Nodes(s)
  {
    if n == s.n || s.Tip? then []
    else if n in Nodes(s.l) then [false] + PathOf(s.l, n)
    else [true] + PathOf(s.r, n)
  }

  /** A node's path is its parent's and one more bit, which the parent's left pointer tells. */
  lemma {:induction false} PathFromParent(s: Shape, n: HuffmanNode)
    requires Linked(s) && n in Nodes(s) && n != s.n
    ensures n.parent != null && n.parent in Nodes(s) && n.parent.left != null
    ensures PathOf(s, n) == PathOf(s, n.parent) + [n.parent.left != n]
  {
    var sub := if n in Nodes(s.l) then s.l else s.r;
    if n != sub.n {
      PathFromParent(sub, n);
    }
  }

  lemma {:induction false} PathBound(s: Shape, n: HuffmanNode)
    requires Linked(s) && n in Nodes(s)
    ensures |PathOf(s, n)| < |Values(TreeOf(s))|
  {
    if n != s.n {
      PathBound(if n in Nodes(s.l) then s.l else s.r, n);
    }
  }

  /** A table with every tip's path at the tip's value is the tree's code. */
  lemma {:induction false} CodedFromPaths(s: Shape, pre: Word, table: seq<Word>)
    requires Linked(s)
    requires forall n :: n in Tips(s) ==> n.value < |table| && table[n.value] == pre + PathOf(s, n)
    ensures Coded(TreeOf(s), pre, table)
  {
    if s.Fork? {
      forall b, n | n in Tips(if b then s.r else s.l)
        ensures n.value < |table| && table[n.value] == pre + [b] + PathOf(if b then s.r else s.l, n)
      {
        assert n in Tips(s);
        ConcatAssociates(pre, [b], PathOf(if b then s.r else s.l, n));
      }
      CodedFromPaths(s.l, pre + [false], table);
      CodedFromPaths(s.r, pre + [true], table);
    } else {
      assert pre + PathOf(s, s.n) == pre;
    }
  }

  class HuffmanEncodingTree {
    var root: HuffmanNode?
    var encodingTable: seq<CharacterEncoding>
    ghost var shape: Shape
    ghost var table: seq<Word>

    /** The tree is linked, and the table holds its code as left-aligned bits. */
    ghost predicate Valid()
      reads this, Nodes(shape)
    {
      && root == shape.n && Linked(shape) && TreeOf(shape).Node?
      && multiset(Values(TreeOf(shape))) == multiset(Iota(SYMBOLS))
      && |table| == SYMBOLS && Coded(TreeOf(shape), [], table)
      && Encodes(encodingTable, table)
    }

    constructor (frequencyTable: seq<nat>)
      requires |frequencyTable| == SYMBOLS && forall i :: 0 <= i < SYMBOLS ==> frequencyTable[i] < WEIGHT_RANGE
      ensures Valid() && fresh(Nodes(shape))
      ensures TreeOf(shape) == HuffmanTree(frequencyTable)
    {
      var tip := new HuffmanNode(0, 0, null, null);
      root, encodingTable, shape, table := null, [], Tip(tip), [];
      new;
      GenerateFromFrequencyTable(frequencyTable);
    }

    /** Builds the tree and the code table; both replace what was there. */
    method GenerateFromFrequencyTable(frequencyTable: seq<nat>)
      requires |frequencyTable| == SYMBOLS && forall i :: 0 <= i < SYMBOLS ==> frequencyTable[i] < WEIGHT_RANGE
      modifies this
      ensures Valid() && fresh(Nodes(shape))
      ensures TreeOf(shape) == HuffmanTree(frequencyTable)
    {
      hide Linked, TreeOf, Coded, Encodes, Build, Leaves, Values, Forest, AllNodes, Iota, HuffmanTree, Trees, Valid;
      var leafList, list;
      ghost var shapes;
      leafList, list, shapes := MakeLeaves(frequencyTable);
      var top: HuffmanNode;
      ghost var s: Shape;
      top, s := MergeAll(list, shapes);
      GeneratedTree(frequencyTable, s);
      NodesAllocated(s);
      var encodings: seq<CharacterEncoding>;
      ghost var words: seq<Word>;
      encodings, words := MakeTable(leafList, top, s);
      assert fresh(Nodes(s));
      label generated:
      root, shape, encodingTable, table := top, s, encodings, words;
      ParentIrrelevant@generated(s);
      EstablishValid(this);
    }

    /** Appends the code words of the input, and up to seven bits of a longer code word to fill the last byte. */
    method EncodeArray(input: seq<Byte>, output: BitStream) returns (ghost pad: Word, ghost v: nat)
      requires Valid() && output.Valid()
      modifies output, output.data
      ensures Valid() && output.Valid() && (output.data == old(output.data) || fresh(output.data))
      ensures output.readOffset == old(output.readOffset)
      ensures output.Contents() == old(output.Contents()) + Encoded(table, Symbols(input)) + pad
      ensures v < SYMBOLS && pad < table[v] && |pad| < 8
      ensures if input == [] then pad == [] else output.numberOfBitsUsed % 8 == 0
    {
      hide *;
      ghost var start := output.Contents();
      pad, v := [], 0;
      TableFacts(this, 0);
      if input == [] {
        NothingEncoded(table, start);
        return;
      }
      WriteWords(input, output);
      if output.numberOfBitsUsed % 8 != 0 {
        pad, v := PadToByte(output);
      }
    }

    /** The loop of EncodeArray over the input. */
    method WriteWords(input: seq<Byte>, output: BitStream)
      requires Valid() && output.Valid()
      modifies output, output.data
      ensures Valid() && output.Valid() && (output.data == old(output.data) || fresh(output.data))
      ensures output.readOffset == old(output.readOffset)
      ensures output.Contents() == old(output.Contents()) + Encoded(table, Symbols(input))
    {
      hide Linked, TreeOf, Coded, Holds, LeavesCleanTail, Payload, Values, Flatten, BytesFor, Falses, Encoded, Iota;
      hide BitStream.Valid, BitStream.Contents, Symbols;
      ghost var start := output.Contents();
      NothingEncoded(table, start);
      assert input[..0] == [];
      NodesAllocated(shape);
      ghost var words, encodings := table, encodingTable;
      for counter := 0 to |input|
        invariant unchanged(this) && output.Valid() && (output.data == old(output.data) || fresh(output.data))
        invariant output.readOffset == old(output.readOffset)
        invariant output.Contents() == start + Encoded(words, Symbols(input[..counter]))
      {
        var e := encodingTable[input[counter] as int];
        LeftPayload(e.encoding, words[input[counter] as int], e.bitLength, output.numberOfBitsUsed);
        output.WriteBits(e.encoding, e.bitLength, false);
        EncodedPush(words, input, counter, start);
        assert words[input[counter] as int][..e.bitLength] == words[input[counter] as int];
      }
      assert input[..|input|] == input;
      StillValid(this);
    }

    /** Fills the last byte with the beginning of the first code word that is longer than what is missing. */
    method PadToByte(output: BitStream) returns (ghost pad: Word, ghost v: nat)
      requires Valid() && output.Valid() && output.numberOfBitsUsed % 8 != 0
      modifies output, output.data
      ensures Valid() && output.Valid() && (output.data == old(output.data) || fresh(output.data))
      ensures output.readOffset == old(output.readOffset)
      ensures v < SYMBOLS && pad < table[v] && |pad| == 8 - old(output.numberOfBitsUsed) % 8
      ensures output.Contents() == old(output.Contents()) + pad
      ensures output.numberOfBitsUsed % 8 == 0
    {
      hide Linked, TreeOf, Coded, Holds, LeavesCleanTail, Payload, Values, Flatten, BytesFor, Falses, Iota;
      NodesAllocated(shape);
      var remainingBits := 8 - output.numberOfBitsUsed % 8;
      ghost var v0 := LongSymbol(this);
      for counter := 0 to SYMBOLS
        invariant forall c :: 0 <= c < counter ==> encodingTable[c].bitLength <= remainingBits
        invariant unchanged(this) && output.Valid() && output.data == old(output.data)
        invariant output.Contents() == old(output.Contents()) && output.readOffset == old(output.readOffset)
      {
        var e := encodingTable[counter];
        if e.bitLength > remainingBits {
          pad, v := table[counter][..remainingBits], counter;
          LeftPayload(e.encoding, table[counter], remainingBits, output.numberOfBitsUsed);
          output.WriteBits(e.encoding, remainingBits, false);
          StillValid(this);
          return;
        }
      }
      assert false;
    }

    /** Takes sizeInBits bits and writes the symbols they complete, as far as they fit; counts them all. */
    method DecodeArray(input: BitStream, sizeInBits: nat, maxCharsToWrite: nat, output: array<Byte>)
      returns (written: nat)
      requires Valid() && input.Readable() && input.readOffset + sizeInBits <= input.numberOfBitsUsed
      requires maxCharsToWrite <= output.Length && output != input.data
      modifies input`readOffset, output
      ensures Valid() && input.Readable() && (old(input.Valid()) ==> input.Valid())
      ensures input.Contents() == old(input.Contents()) && input.readOffset == old(input.readOffset) + sizeInBits
      ensures var t := TreeOf(shape);
              var s := BytesOf(Decode(t, t, old(input.Contents()[input.readOffset..input.readOffset + sizeInBits])).0);
              var n := if written < maxCharsToWrite then written else maxCharsToWrite;
              written == |s| && output[..] == s[..n] + old(output[..])[n..]
    {
      hide *;
      ghost var bits := input.Contents()[input.readOffset..input.readOffset + sizeInBits];
      ghost var t, at, tree := StartDecoding(this, bits);
      ghost var done: seq<nat>, before := [], output[..];
      written := 0;
      var currentNode := root;
      NothingWritten(before, maxCharsToWrite);
      for counter := 0 to sizeInBits
        invariant input.Readable() && (old(input.Valid()) ==> input.Valid())
        invariant input.Contents() == old(input.Contents()) && input.readOffset == old(input.readOffset) + counter
        invariant currentNode != null && Walk(this, currentNode, at, tree, t) && t == old(TreeOf(shape))
        invariant done + Decode(t, tree, bits[counter..]).0 == Decode(t, t, bits).0
        invariant written == |done| && output[..] == Overwritten(before, BytesOf(done), maxCharsToWrite)
      {
        StillValid(this);
        var b := input.ReadBit();
        assert b == bits[counter] == bits[counter..][0] && bits[counter..][1..] == bits[counter + 1..];
        Descend(this, currentNode, at, tree, t, b);
        Emit(t, tree, bits[counter..], done);
        at, tree := if b then at.r else at.l, if b then tree.right else tree.left;
        currentNode := if b then currentNode.right else currentNode.left;
        if currentNode.left == null && currentNode.right == null {
          if written < maxCharsToWrite {
            output[written] := LowByte(currentNode.value);
          }
          written := written + 1;
          OneMoreWritten(before, done, currentNode.value, maxCharsToWrite);
          done := done + [currentNode.value];
          currentNode := root;
          at, tree := shape, t;
        }
      }
      StillValid(this);
      NothingLeft(t, tree, bits, done);
      OverwrittenPart(before, BytesOf(done), maxCharsToWrite);
    }

    /** Appends the symbols that the first sizeInBits bits of the input complete. */
    method DecodeBytes(input: seq<Byte>, sizeInBits: nat, output: BitStream)
      requires Valid() && output.Valid() && sizeInBits <= 8 * |input|
      modifies output, output.data
      ensures Valid() && output.Valid() && (output.data == old(output.data) || fresh(output.data))
      ensures output.readOffset == old(output.readOffset)
      ensures var t := TreeOf(shape);
              var s := BytesOf(Decode(t, t, Flatten(input)[..sizeInBits]).0);
              output.Contents() == old(output.Contents()) + Flatten(s)
    {
      hide *;
      ghost var bits := Flatten(input)[..sizeInBits];
      ghost var t, at, tree := StartDecoding(this, bits);
      ghost var done: seq<nat>, start := [], output.Contents();
      EmptySymbols(start);
      if sizeInBits > 0 {
        var bitStream := new BitStream(BytesFor(sizeInBits));
        bitStream.SetData(input, sizeInBits);
        var currentNode := root;
        for counter := 0 to sizeInBits
          invariant output.Valid() && (output.data == old(output.data) || fresh(output.data))
          invariant output.readOffset == old(output.readOffset)
          invariant fresh(bitStream) && fresh(bitStream.data) && output != bitStream && output.data != bitStream.data
          invariant bitStream.Readable() && bitStream.Contents() == bits && bitStream.readOffset == counter
          invariant currentNode != null && Walk(this, currentNode, at, tree, t) && t == old(TreeOf(shape))
          invariant done + Decode(t, tree, bits[counter..]).0 == Decode(t, t, bits).0
          invariant output.Contents() == start + Flatten(BytesOf(done))
        {
          StillValid(this);
          var b := bitStream.ReadBit();
          NextBit(bits, counter);
          Descend(this, currentNode, at, tree, t, b);
          Emit(t, tree, bits[counter..], done);
          at, tree := if b then at.r else at.l, if b then tree.right else tree.left;
          currentNode := if b then currentNode.right else currentNode.left;
          if currentNode.left == null && currentNode.right == null {
            WriteSymbol(currentNode.value, output, start, done);
            done := done + [currentNode.value];
            currentNode := root;
            at, tree := shape, t;
          }
        }
        NothingLeft(t, tree, bits, done);
      } else {
        NothingLeft(t, tree, bits, done);
      }
      StillValid(this);
    }
  }

  lemma NextBit(bits: seq<bool>, k: nat)
    requires k < |bits|
    ensures bits[k..] != [] && bits[k] == bits[k..][0] && bits[k..][1..] == bits[k + 1..]
  {
  }

  /** Appends a decoded symbol. */
  method WriteSymbol(value: nat, output: BitStream, ghost start: seq<bool>, ghost done: seq<nat>)
    requires output.Valid() && output.Contents() == start + Flatten(BytesOf(done))
    modifies output, output.data
    ensures output.Valid() && (output.data == old(output.data) || fresh(output.data))
    ensures output.readOffset == old(output.readOffset)
    ensures output.Contents() == start + Flatten(BytesOf(done + [value]))
  {
    hide *;
    var symbol := [LowByte(value)];
    output.WriteBits(symbol, 8, true);
    OneMoreSymbol(start, done, value);
  }

  /** What happens to other objects does not matter to a tree. */
  twostate lemma StillValid(h: HuffmanEncodingTree)
    requires old(h.Valid()) && unchanged(h)
    requires forall n :: n in Nodes(h.shape) ==> old(allocated(n)) && unchanged(n)
    ensures h.Valid() && TreeOf(h.shape) == old(TreeOf(h.shape))
  {
    hide Coded, Values, Encodes, Iota;
    ParentIrrelevant(h.shape);
  }

  // ----- symbols

  function Symbols(input: seq<Byte>): (s: seq<nat>)
    ensures |s| == |input| && forall i :: 0 <= i < |s| ==> s[i] == input[i] as int < 256
  {
    seq(|input|, i requires 0 <= i < |input| => input[i] as int)
  }

  /** Symbols as the bytes they are stored in. */
  function BytesOf(s: seq<nat>): (d: seq<Byte>)
    ensures |d| == |s|
  {
    if s == [] then [] else [LowByte(s[0])] + BytesOf(s[1..])
  }

  lemma TableFacts(h: HuffmanEncodingTree, c: nat)
    requires h.Valid() && c < 256
    ensures |h.table| == 256 && |h.encodingTable| == 256 && SYMBOLS == 256
    ensures h.encodingTable[c].bitLength == |h.table[c]| && Holds(h.encodingTable[c].encoding, h.table[c])
    ensures c in Values(TreeOf(h.shape)) && [] < h.table[c]
  {
    hide Linked, TreeOf, Values, Coded, Holds;
    var t := TreeOf(h.shape);
    assert Iota(256)[c] == c;
    assert c in multiset(Iota(256));
    assert c in multiset(Values(t));
    DecodeWord(t, t, [], h.table, c, []);
  }

  // ----- decoding

  /** The node and the tree are at the same place in the shape s and in the tree t. */
  ghost predicate Within(sub: Shape, tree: Tree, s: Shape, t: Tree) {
    || (sub == s && tree == t)
    || (s.Fork? && t.Node? && (Within(sub, tree, s.l, t.left) || Within(sub, tree, s.r, t.right)))
  }

  lemma {:induction false} WithinLinked(sub: Shape, tree: Tree, s: Shape, t: Tree)
    requires Linked(s) && TreeOf(s) == t && Within(sub, tree, s, t)
    ensures Linked(sub) && TreeOf(sub) == tree
    ensures sub.Fork? ==> Within(sub.l, tree.left, s, t) && Within(sub.r, tree.right, s, t)
  {
    if sub == s && tree == t {
      if s.Fork? {
        WithinItself(s.l, t.left);
        WithinItself(s.r, t.right);
      }
    } else if Within(sub, tree, s.l, t.left) {
      WithinLinked(sub, tree, s.l, t.left);
    } else {
      WithinLinked(sub, tree, s.r, t.right);
    }
  }

  lemma WithinItself(s: Shape, t: Tree)
    ensures Within(s, t, s, t)
  {
  }

  /** The walk stands at an inner node of the tree. */
  ghost predicate Walk(h: HuffmanEncodingTree, currentNode: HuffmanNode?, at: Shape, tree: Tree, t: Tree)
    reads h
  {
    at.Fork? && tree.Node? && Within(at, tree, h.shape, t) && currentNode == at.n
  }

  /** Decode, one bit unfolded, behind the symbols already found. */
  lemma Emit(t: Tree, at: Tree, bits: Word, done: seq<nat>)
    requires at.Node? && bits != []
    ensures var next := if bits[0] then at.right else at.left;
            done + Decode(t, at, bits).0
            == if next.Leaf? then done + [next.value] + Decode(t, t, bits[1..]).0
               else done + Decode(t, next, bits[1..]).0
  {
  }

  lemma StartDecoding(h: HuffmanEncodingTree, bits: Word) returns (t: Tree, at: Shape, tree: Tree)
    requires h.Valid()
    ensures t == tree == TreeOf(h.shape) && at == h.shape && h.root != null && Walk(h, h.root, at, tree, t)
    ensures [] + Decode(t, tree, bits[0..]).0 == Decode(t, t, bits).0
    ensures forall n :: n in Nodes(h.shape) ==> allocated(n)
  {
    t, at, tree := TreeOf(h.shape), h.shape, TreeOf(h.shape);
    NodesAllocated(h.shape);
    WithinItself(h.shape, t);
    assert bits[0..] == bits;
  }

  lemma NothingLeft(t: Tree, at: Tree, bits: Word, done: seq<nat>)
    requires done + Decode(t, at, bits[|bits|..]).0 == Decode(t, t, bits).0
    ensures done == Decode(t, t, bits).0
  {
  }

  /** Going down one link in the nodes is going down in the tree. */
  lemma Descend(h: HuffmanEncodingTree, node: HuffmanNode, at: Shape, tree: Tree, t: Tree, b: bool)
    requires h.Valid() && TreeOf(h.shape) == t && Walk(h, node, at, tree, t)
    ensures at.Fork? && tree.Node? && node.left != null && node.right != null
    ensures var child := if b then at.r else at.l;
            var childTree := if b then tree.right else tree.left;
            && child.n == (if b then node.right else node.left)
            && (child.n.left == null && child.n.right == null <==> childTree.Leaf?)
            && (childTree.Leaf? ==> childTree.value == child.n.value)
            && (childTree.Node? ==> Walk(h, child.n, child, childTree, t))
    ensures h.root != null && Walk(h, h.root, h.shape, t, t)
  {
    WithinLinked(at, tree, h.shape, t);
    WithinItself(h.shape, t);
  }

  /** The output with the first symbols replaced, as many as fit. */
  ghost function Overwritten(before: seq<Byte>, s: seq<Byte>, max: nat): seq<Byte>
    requires max <= |before|
  {
    var n := if |s| < max then |s| else max;
    s[..n] + before[n..]
  }

  lemma OverwrittenPart(before: seq<Byte>, s: seq<Byte>, max: nat)
    requires max <= |before|
    ensures Overwritten(before, s, max) == var n := if |s| < max then |s| else max; s[..n] + before[n..]
  {
  }

  lemma NothingWritten(before: seq<Byte>, max: nat)
    requires max <= |before|
    ensures Overwritten(before, BytesOf([]), max) == before
  {
  }

  lemma {:induction false} BytesPush(s: seq<nat>, v: nat)
    ensures BytesOf(s + [v]) == BytesOf(s) + [LowByte(v)]
  {
    if s != [] {
      BytesPush(s[1..], v);
      assert (s + [v])[1..] == s[1..] + [v];
    } else {
      assert (s + [v])[1..] == [];
    }
  }

  lemma OneMoreWritten(before: seq<Byte>, done: seq<nat>, v: nat, max: nat)
    requires max <= |before|
    ensures Overwritten(before, BytesOf(done + [v]), max)
         == var was := Overwritten(before, BytesOf(done), max); if |done| < max then was[|done| := LowByte(v)] else was
  {
    hide *;
    BytesPush(done, v);
    OverwrittenPush(before, BytesOf(done), LowByte(v), max);
  }

  lemma OverwrittenPush(before: seq<Byte>, s: seq<Byte>, b: Byte, max: nat)
    requires max <= |before|
    ensures Overwritten(before, s + [b], max)
         == var was := Overwritten(before, s, max); if |s| < max then was[|s| := b] else was
  {
    if |s| < max {
      assert (s + [b])[..|s| + 1] == s + [b];
      assert s[..|s|] == s;
      assert before[|s|..][1..] == before[|s| + 1..];
    } else {
      assert (s + [b])[..max] == s[..max];
    }
  }

  lemma EmptySymbols(start: Word)
    ensures start + Flatten(BytesOf([])) == start
  {
  }

  lemma OneMoreSymbol(start: Word, done: seq<nat>, v: nat)
    ensures start + Flatten(BytesOf(done + [v])) == start + Flatten(BytesOf(done)) + Payload([LowByte(v)], 8, true)
  {
    hide Unpack, LowByte;
    BytesPush(done, v);
    FlattenPush(BytesOf(done), LowByte(v));
    assert [LowByte(v)] == [] + [LowByte(v)];
    FlattenPush([], LowByte(v));
    assert [LowByte(v)][..1] == [LowByte(v)];
  }

  /** Decoding what EncodeArray appends gives back its input: all of it and nothing else. */
  lemma DecodesItsCode(t: Tree, table: seq<Word>, input: seq<Byte>, pad: Word, v: nat)
    requires t.Node? && Coded(t, [], table) && |table| == SYMBOLS && multiset(Values(t)) == multiset(Iota(SYMBOLS))
    requires v < SYMBOLS && pad < table[v]
    ensures BytesOf(Decode(t, t, Encoded(table, Symbols(input)) + pad).0) == input
  {
    hide Coded, Decode, Values;
    forall c | 0 <= c < 256
      ensures c in Values(t)
    {
      assert Iota(256)[c] == c;
      assert c in multiset(Iota(256));
      assert c in multiset(Values(t));
    }
    DecodeEncoded(t, table, Symbols(input), pad, v);
    BytesOfSymbols(input);
  }

  lemma {:induction false} BytesOfSymbols(input: seq<Byte>)
    ensures BytesOf(Symbols(input)) == input
  {
    if input != [] {
      assert Symbols(input)[1..] == Symbols(input[1..]);
      BytesOfSymbols(input[1..]);
      ByteAndBack(input[0]);
    }
  }

  /** Some symbol has a code word of more than seven bits. */
  lemma LongSymbol(h: HuffmanEncodingTree) returns (v: nat)
    requires h.Valid()
    ensures v < SYMBOLS && |h.encodingTable| == SYMBOLS && h.encodingTable[v].bitLength > 7
  {
    hide Linked, TreeOf, Values, Coded, Holds, Iota;
    var t := TreeOf(h.shape);
    assert |multiset(Values(t))| == |Values(t)|;
    assert |multiset(Iota(256))| == |Iota(256)|;
    assert Pow2(7) == 128;
    v := LongWord(t, [], h.table, 7);
  }

  lemma NothingEncoded(table: seq<Word>, start: Word)
    ensures start + Encoded(table, Symbols([])) == start
    ensures start + Encoded(table, Symbols([])) + [] == start
  {
  }

  lemma {:induction false} EncodedAppend(table: seq<Word>, s: seq<nat>, v: nat)
    requires v < |table| && forall i :: 0 <= i < |s| ==> s[i] < |table|
    ensures Encoded(table, s + [v]) == Encoded(table, s) + table[v]
  {
    var t := s + [v];
    if s == [] {
      assert Encoded(table, t[1..]) == [];
    } else {
      EncodedAppend(table, s[1..], v);
      assert t[1..] == s[1..] + [v];
      ConcatAssociates(table[s[0]], Encoded(table, s[1..]), table[v]);
    }
  }

  lemma EncodedPush(table: seq<Word>, input: seq<Byte>, k: nat, start: Word)
    requires |table| == 256 && k < |input|
    ensures start + Encoded(table, Symbols(input[..k + 1]))
         == start + Encoded(table, Symbols(input[..k])) + table[input[k] as int]
  {
    assert Symbols(input[..k + 1]) == Symbols(input[..k]) + [input[k] as int];
    EncodedAppend(table, Symbols(input[..k]), input[k] as int);
    ConcatAssociates(start, Encoded(table, Symbols(input[..k])), table[input[k] as int]);
  }

  lemma EstablishValid(h: HuffmanEncodingTree)
    requires h.root == h.shape.n && Linked(h.shape) && TreeOf(h.shape).Node?
    requires multiset(Values(TreeOf(h.shape))) == multiset(Iota(SYMBOLS))
    requires |h.table| == SYMBOLS && Coded(TreeOf(h.shape), [], h.table)
    requires Encodes(h.encodingTable, h.table)
    ensures h.Valid()
  {
  }

  lemma GeneratedTree(frequencyTable: seq<nat>, s: Shape)
    requires |frequencyTable| == SYMBOLS && TreeOf(s) == Build(Leaves(frequencyTable, SYMBOLS))
    ensures TreeOf(s) == HuffmanTree(frequencyTable) && TreeOf(s).Node?
    ensures multiset(Values(TreeOf(s))) == multiset(Iota(SYMBOLS))
    ensures |Values(TreeOf(s))| == SYMBOLS
  {
    hide HuffmanTree, Build, Leaves, Values, Iota;
    TreeIsBuilt(frequencyTable);
    AllSymbols(frequencyTable);
    NodeTree(frequencyTable);
    assert |multiset(Values(TreeOf(s)))| == |Values(TreeOf(s))|;
    assert |multiset(Iota(SYMBOLS))| == |Iota(SYMBOLS)|;
  }

  lemma MoreEncodes(encodings: seq<CharacterEncoding>, table: seq<Word>, e: CharacterEncoding, w: Word)
    requires Encodes(encodings, table) && e.bitLength == |w| && Holds(e.encoding, w)
    ensures Encodes(encodings + [e], table + [w])
  {
  }

  ghost predicate Encodes(encodings: seq<CharacterEncoding>, table: seq<Word>) {
    && |encodings| == |table|
    && forall c :: 0 <= c < |table| ==> encodings[c].bitLength == |table[c]| && Holds(encodings[c].encoding, table[c])
  }

  /** leafList[c] is the tip of symbol c, and there are no other tips. */
  ghost predicate LeafNodes(leafList: seq<HuffmanNode>, tips: set<HuffmanNode>)
    reads tips
  {
    && (forall c :: 0 <= c < |leafList| ==> leafList[c] in tips && leafList[c].value == c)
    && (forall n :: n in tips ==> n in leafList)
  }

  /** One leaf per symbol, in a list sorted by weight; weights of 0 are raised to 1. */
  method MakeLeaves(frequencyTable: seq<nat>)
    returns (leafList: seq<HuffmanNode>, list: seq<HuffmanNode>, ghost shapes: seq<Shape>)
    requires |frequencyTable| == SYMBOLS
    ensures Forest(list, shapes) && |list| == SYMBOLS && fresh(AllNodes(shapes))
    ensures Trees(shapes) == Leaves(frequencyTable, SYMBOLS)
    ensures |leafList| == SYMBOLS && LeafNodes(leafList, AllTips(shapes))
  {
    hide Forest, Trees, AllNodes, AllTips, InsertSorted;
    leafList, list, shapes := [], [], [];
    NoShapes(shapes);
    EmptyForest();
    for counter := 0 to SYMBOLS
      invariant |list| == counter && Forest(list, shapes) && fresh(AllNodes(shapes))
      invariant Trees(shapes) == Leaves(frequencyTable, counter)
      invariant |leafList| == counter && LeafNodes(leafList, AllTips(shapes))
    {
      var weight := frequencyTable[counter];
      if weight == 0 {
        weight := 1;
      }
      ListAllocated(shapes);
      var node := new HuffmanNode(counter, weight, null, null);
      leafList := leafList + [node];
      list, shapes := InsertNodeIntoSortedList(node, list, Tip(node), shapes);
    }
  }

  lemma EmptyForest()
    ensures Forest([], []) && Trees([]) == []
  {
  }

  // ----- the code table

  /** tempPath holds a path from the leaf to the root, so the way down reads it backwards. */
  ghost function Reversed(s: seq<bool>): (r: Word)
    ensures |r| == |s|
  {
    if s == [] then [] else [s[|s| - 1]] + Reversed(s[..|s| - 1])
  }

  /** Stores the path from a leaf up to the root by following parent pointers. */
  method ClimbToRoot(leaf: HuffmanNode, root: HuffmanNode, ghost s: Shape, tempPath: array<bool>) returns (length: nat)
    requires Linked(s) && s.n == root && leaf in Nodes(s) && leaf != root
    requires |Values(TreeOf(s))| <= tempPath.Length
    modifies tempPath
    ensures length <= tempPath.Length && Reversed(tempPath[..length]) == PathOf(s, leaf)
  {
    hide Linked, PathOf, TreeOf, Values, Nodes, Reversed;
    length := 0;
    var currentNode := leaf;
    PathBound(s, leaf);
    PathOfRoot(s);
    while true
      invariant currentNode in Nodes(s) && currentNode != root && Linked(s)
      invariant length + |PathOf(s, currentNode)| == |PathOf(s, leaf)| < tempPath.Length
      invariant PathOf(s, leaf) == PathOf(s, currentNode) + Reversed(tempPath[..length])
      decreases |PathOf(s, currentNode)|
    {
      PathFromParent(s, currentNode);
      ghost var up, path := PathOf(s, currentNode.parent), tempPath[..length];
      var b := currentNode.parent.left != currentNode;
      tempPath[length] := b;
      length := length + 1;
      assert tempPath[..length] == path + [b];
      ReversedPush(path, b);
      ConcatAssociates(up, [b], Reversed(path));
      currentNode := currentNode.parent;
      if currentNode == root {
        break;
      }
    }
  }

  lemma PathOfRoot(s: Shape)
    ensures PathOf(s, s.n) == []
  {
  }

  lemma ReversedPush(path: seq<bool>, b: bool)
    ensures Reversed(path + [b]) == [b] + Reversed(path)
  {
    assert (path + [b])[..|path|] == path;
  }

  /** Writes a stored path backwards. */
  method WritePath(tempPath: seq<bool>, bitStream: BitStream)
    requires bitStream.Valid()
    modifies bitStream, bitStream.data
    ensures bitStream.Valid() && (bitStream.data == old(bitStream.data) || fresh(bitStream.data))
    ensures bitStream.Contents() == old(bitStream.Contents()) + Reversed(tempPath)
  {
    hide *;
    var k := |tempPath|;
    assert tempPath[..k] == tempPath;
    while k > 0
      invariant k <= |tempPath| && bitStream.Valid()
      invariant bitStream.data == old(bitStream.data) || fresh(bitStream.data)
      invariant old(bitStream.Contents()) + Reversed(tempPath) == bitStream.Contents() + Reversed(tempPath[..k])
    {
      k := k - 1;
      ghost var done := bitStream.Contents();
      if tempPath[k] {
        bitStream.Write1();
      } else {
        bitStream.Write0();
      }
      assert tempPath[..k + 1] == tempPath[..k] + [tempPath[k]];
      ReversedPush(tempPath[..k], tempPath[k]);
      ConcatAssociates(done, [tempPath[k]], Reversed(tempPath[..k]));
    }
    NothingReversed(tempPath[..k]);
  }

  lemma NothingReversed(s: seq<bool>)
    requires s == []
    ensures Reversed(s) == []
  {
  }

  /** Every symbol's path, packed from the left. */
  method MakeTable(leafList: seq<HuffmanNode>, root: HuffmanNode, ghost s: Shape)
    returns (encodings: seq<CharacterEncoding>, ghost table: seq<Word>)
    requires Linked(s) && s.Fork? && s.n == root && |Values(TreeOf(s))| == SYMBOLS
    requires |leafList| == SYMBOLS && LeafNodes(leafList, Tips(s))
    ensures |table| == SYMBOLS && Coded(TreeOf(s), [], table) && Encodes(encodings, table)
  {
    hide *;
    NodesAllocated(s);
    PathsStart(leafList, s);
    var tempPath := new bool[SYMBOLS];
    var bitStream := new BitStream(0);
    encodings, table := [], [];
    for counter := 0 to SYMBOLS
      invariant |table| == counter && Encodes(encodings, table)
      invariant Linked(s) && TreeOf(s) == old(TreeOf(s)) && LeafNodes(leafList, Tips(s))
      invariant fresh(tempPath) && fresh(bitStream) && (tempPath as object) != bitStream.data
      invariant bitStream.Valid() && fresh(bitStream.data) && bitStream.Contents() == []
      invariant Paths(leafList, s, table, counter)
    {
      var leaf := leafList[counter];
      TipIsNotRoot(s, leafList, counter);
      var length := ClimbToRoot(leaf, root, s, tempPath);
      WritePath(tempPath[..length], bitStream);
      var bits, copy := bitStream.CopyData();
      MorePaths(leafList, s, table, counter);
      MoreEncodes(encodings, table, CharacterEncoding(bits, copy), PathOf(s, leaf));
      table := table + [PathOf(s, leaf)];
      encodings := encodings + [CharacterEncoding(bits, copy)];
      bitStream.Reset();
    }
    CodedFromTable(leafList, s, table);
  }

  ghost predicate Paths(leafList: seq<HuffmanNode>, s: Shape, table: seq<Word>, n: nat) {
    n <= |leafList| && n <= |table| &&
       forall c :: 0 <= c < n ==> leafList[c] in Nodes(s) && table[c] == PathOf(s, leafList[c])
  }

  lemma PathsStart(leafList: seq<HuffmanNode>, s: Shape)
    ensures Paths(leafList, s, [], 0) && Encodes([], [])
  {
  }

  lemma MorePaths(leafList: seq<HuffmanNode>, s: Shape, table: seq<Word>, n: nat)
    requires Paths(leafList, s, table, n) && n == |table| < |leafList| && leafList[n] in Nodes(s)
    ensures Paths(leafList, s, table + [PathOf(s, leafList[n])], n + 1)
  {
  }

  lemma CodedFromTable(leafList: seq<HuffmanNode>, s: Shape, table: seq<Word>)
    requires Linked(s) && LeafNodes(leafList, Tips(s)) && Paths(leafList, s, table, |leafList|)
    ensures Coded(TreeOf(s), [], table)
  {
    hide Linked, TreeOf, PathOf, Tips, Nodes;
    forall n | n in Tips(s)
      ensures n.value < |table| && table[n.value] == [] + PathOf(s, n)
    {
      assert n in leafList;
      assert [] + PathOf(s, n) == PathOf(s, n);
    }
    CodedFromPaths(s, [], table);
  }

  lemma TipIsNotRoot(s: Shape, leafList: seq<HuffmanNode>, c: nat)
    requires Linked(s) && s.Fork? && c < |leafList| && LeafNodes(leafList, Tips(s))
    ensures leafList[c] in Nodes(s) && leafList[c] != s.n
  {
    assert leafList[c] in Tips(s);
  }
}

/** Huffman trees as values: building them, the code they define, and decoding. */
module HuffmanTrees {
  import opened PrefixCodes

  const WEIGHT_RANGE := 0x1_0000_0000

  datatype Tree = Leaf(value: nat, count: nat) | Node(left: Tree, right: Tree)

  /** The weight as stored in a 32-bit field, where sums may wrap. */
  function Weight(t: Tree): nat {
    match t
    case Leaf(_, c) => c
    case Node(l, r) => (Weight(l) + Weight(r)) % WEIGHT_RANGE
  }

  /** The sum of the leaves' weights. */
  function Total(t: Tree): nat {
    match t
    case Leaf(_, c) => c
    case Node(l, r) => Total(l) + Total(r)
  }

  function Values(t: Tree): (s: seq<nat>)
    ensures s != []
  {
    match t
    case Leaf(v, _) => [v]
    case Node(l, r) => Values(l) + Values(r)
  }

  // ----- building

  /** Inserts before the first tree that is not lighter; equal weights queue up behind the new one. */
  function InsertSorted(t: Tree, list: seq<Tree>): (r: seq<Tree>)
    ensures |r| == |list| + 1
  {
    if list == [] || Weight(list[0]) >= Weight(t) then [t] + list
    else [list[0]] + InsertSorted(t, list[1..])
  }

  /** Merges the first two trees of the list until one is left. */
  function Build(list: seq<Tree>): Tree
    requires list != []
    decreases |list|
  {
    if |list| == 1 then list[0] else Build(InsertSorted(Node(list[0], list[1]), list[2..]))
  }

  /** A weight of 0 counts as 1. */
  function WeightOf(weights: seq<nat>, v: nat): nat
    requires v < |weights|
  {
    if weights[v] == 0 then 1 else weights[v]
  }

  function LeafOf(weights: seq<nat>, v: nat): Tree
    requires v < |weights|
  {
    Leaf(v, WeightOf(weights, v))
  }

  /** The list after the first n leaves have been inserted. */
  function Leaves(weights: seq<nat>, n: nat): (r: seq<Tree>)
    requires n <= |weights|
    ensures |r| == n
  {
    if n == 0 then [] else InsertSorted(LeafOf(weights, n - 1), Leaves(weights, n - 1))
  }

  function HuffmanTree(weights: seq<nat>): Tree
    requires weights != []
  {
    Build(Leaves(weights, |weights|))
  }

  // ----- the code of a tree

  /** The table holds, at every leaf's value, the path to that leaf behind `pre`. */
  ghost predicate Coded(t: Tree, pre: Word, table: seq<Word>) {
    match t
    case Leaf(v, _) => v < |table| && table[v] == pre
    case Node(l, r) => Coded(l, pre + [false], table) && Coded(r, pre + [true], table)
  }

  /** The leaf values met on the way from `at`, starting over at the root, and where the bits end. */
  function Decode(root: Tree, at: Tree, bits: Word): (r: (seq<nat>, Tree))
    decreases |bits|
  {
    if bits == [] || at.Leaf? then ([], at)
    else
      var next := if bits[0] then at.right else at.left;
      if next.Leaf? then
        var (s, e) := Decode(root, root, bits[1..]);
        ([next.value] + s, e)
      else Decode(root, next, bits[1..])
  }

  /** The words of the values, one after the other. */
  function Encoded(table: seq<Word>, s: seq<nat>): Word
    requires forall i :: 0 <= i < |s| ==> s[i] < |table|
  {
    if s == [] then [] else table[s[0]] + Encoded(table, s[1..])
  }

  /** Decoding continues over a code word: from a subtree, its leaf's path leads to the leaf. */
  lemma {:induction false} DecodeWord(root: Tree, t: Tree, pre: Word, table: seq<Word>, v: nat, rest: Word)
    requires root.Node? && t.Node? && Coded(t, pre, table) && v in Values(t)
    ensures v < |table| && |pre| < |table[v]| && pre <= table[v]
    ensures var (s, e) := Decode(root, root, rest);
            Decode(root, t, table[v][|pre|..] + rest) == ([v] + s, e)
    decreases t
  {
    var b := v !in Values(t.left);
    var next, p := if b then t.right else t.left, pre + [b];
    if next.Leaf? {
      assert next.value == v && table[v] == p;
      assert (table[v][|pre|..] + rest) == [b] + rest;
    } else {
      DecodeWord(root, next, p, table, v, rest);
      assert table[v][|pre|] == p[|pre|] == b;
      assert (table[v][|pre|..] + rest)[1..] == table[v][|p|..] + rest;
    }
  }

  /** A proper beginning of a code word completes no symbol. */
  lemma {:induction false} DecodePartial(root: Tree, t: Tree, pre: Word, table: seq<Word>, v: nat, w: Word)
    requires root.Node? && t.Node? && Coded(t, pre, table) && v in Values(t)
    requires v < |table| && pre + w < table[v]
    ensures Decode(root, t, w).0 == []
    decreases t
  {
    if w != [] {
      DecodeWord(root, t, pre, table, v, []);
      var b := v !in Values(t.left);
      var next, p := if b then t.right else t.left, pre + [b];
      if next.Node? {
        DecodeWord(root, next, p, table, v, []);
        assert table[v][|pre|] == p[|pre|] == b && (pre + w)[|pre|] == w[0];
        assert pre + w == p + w[1..];
        DecodePartial(root, next, p, table, v, w[1..]);
      }
    }
  }

  /** Decoding an encoded message and a padding gives the message back, and nothing more. */
  lemma {:induction false} DecodeEncoded(root: Tree, table: seq<Word>, s: seq<nat>, pad: Word, v: nat)
    requires root.Node? && Coded(root, [], table)
    requires forall i :: 0 <= i < |s| ==> s[i] in Values(root) && s[i] < |table|
    requires v in Values(root) && v < |table| && pad < table[v]
    ensures Decode(root, root, Encoded(table, s) + pad).0 == s
    decreases |s|
  {
    if s == [] {
      assert [] + pad == pad;
      DecodePartial(root, root, [], table, v, pad);
    } else {
      DecodeEncoded(root, table, s[1..], pad, v);
      var rest := Encoded(table, s[1..]) + pad;
      DecodeWord(root, root, [], table, s[0], rest);
      assert Encoded(table, s) + pad == table[s[0]][0..] + rest;
      assert s == [s[0]] + s[1..];
    }
  }
}

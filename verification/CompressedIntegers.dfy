/**
 * The compressed form of native integers: high bytes that merely extend the
 * sign cost one bit each, and so does an upper half byte of that kind.
 */
module CompressedIntegers {
  import opened Bits
  import opened BitLayout
  import opened BitStreams

  /** The byte that a high byte has to match to be left out. */
  function ByteMatch(unsignedData: bool): Byte {
    if unsignedData then 0 else 0xFF
  }

  function HalfByteMatch(unsignedData: bool): Byte {
    if unsignedData then 0 else 0xF0
  }

  /** The bits an integer (bytes low to high) is compressed to. */
  ghost function Compressed(v: seq<Byte>, unsignedData: bool): seq<bool>
    requires v != []
  {
    var k := |v| - 1;
    if k > 0 then
      if v[k] == ByteMatch(unsignedData) then [true] + Compressed(v[..k], unsignedData)
      else [false] + Flatten(v)
    else if v[0] & 0xF0 == HalfByteMatch(unsignedData) then [true] + Unpack(v[0])[4..]
    else [false] + Unpack(v[0])
  }

  datatype Expansion = Short | Expanded(value: seq<Byte>, used: nat)

  /** What reading n compressed bytes from the given bits yields. */
  function Expand(bits: seq<bool>, n: nat, unsignedData: bool): (e: Expansion)
    requires n > 0
    ensures e.Expanded? ==> |e.value| == n && e.used <= |bits|
  {
    if bits == [] then Short
    else if n > 1 then
      if bits[0] then Extended(Expand(bits[1..], n - 1, unsignedData), 1, unsignedData)
      else if |bits| < 8 * n + 1 then Short
      else Expanded(PackBytes(bits[1..8 * n + 1]), 8 * n + 1)
    else if bits[0] then
      if |bits| < 5 then Short else Expanded([PackRight(bits[1..5]) | HalfByteMatch(unsignedData)], 5)
    else if |bits| < 9 then Short
    else Expanded([Pack(bits[1..9])], 9)
  }

  /** An expansion with k left-out high bytes put back. */
  function Extended(e: Expansion, k: nat, unsignedData: bool): Expansion {
    match e
    case Short => Short
    case Expanded(v, u) => Expanded(v + Fill(k, unsignedData), u + k)
  }

  /** The k left-out high bytes. */
  function Fill(k: nat, unsignedData: bool): (s: seq<Byte>)
    ensures |s| == k
  {
    seq(k, _ => ByteMatch(unsignedData))
  }

  /** Writes the low size/8 bytes of the input in compressed form. */
  method WriteCompressed(stream: BitStream, input: seq<Byte>, size: nat, unsignedData: bool)
    requires stream.Valid() && 8 <= size <= 8 * |input|
    modifies stream, stream.data
    ensures stream.Valid() && (stream.data == old(stream.data) || fresh(stream.data))
    ensures stream.readOffset == old(stream.readOffset)
    ensures stream.Contents() == old(stream.Contents()) + Compressed(input[..size / 8], unsignedData)
  {
    hide BitStream.Valid, BitStream.Contents, BitStream.Image, Flatten, Unpack,
         Payload, BytesFor, Compressed, ByteMatch;
    ghost var before, whole := stream.Contents(), Compressed(input[..size / 8], unsignedData);
    ghost var ones: seq<bool> := [];
    var currentByte := size / 8 - 1;
    while currentByte > 0
      invariant 0 <= currentByte < size / 8
      invariant stream.Valid() && (stream.data == old(stream.data) || fresh(stream.data))
      invariant stream.readOffset == old(stream.readOffset)
      invariant stream.Contents() == before + ones
      invariant whole == ones + Compressed(input[..currentByte + 1], unsignedData)
    {
      CompressedStep(input, currentByte, unsignedData);
      if input[currentByte] == ByteMatch(unsignedData) {
        stream.Write1();
        ConcatAssociates(ones, [true], Compressed(input[..currentByte], unsignedData));
        ConcatAssociates(before, ones, [true]);
        ones := ones + [true];
      } else {
        WriteWholeBytes(stream, input, currentByte + 1);
        ConcatAssociates(before, ones, [false] + Flatten(input[..currentByte + 1]));
        return;
      }
      currentByte := currentByte - 1;
    }
    assert input[..1] == [input[0]];
    WriteLowByte(stream, input[currentByte..], unsignedData);
    ConcatAssociates(before, ones, Compressed([input[0]], unsignedData));
  }

  lemma CompressedStep(input: seq<Byte>, k: nat, unsignedData: bool)
    requires 0 < k < |input|
    ensures Compressed(input[..k + 1], unsignedData)
         == if input[k] == ByteMatch(unsignedData) then [true] + Compressed(input[..k], unsignedData)
            else [false] + Flatten(input[..k + 1])
  {
    hide Flatten, Unpack;
    assert input[..k + 1][..k] == input[..k];
  }

  /** A 0 bit, and the bytes that are left. */
  method WriteWholeBytes(stream: BitStream, input: seq<Byte>, n: nat)
    requires stream.Valid() && n <= |input|
    modifies stream, stream.data
    ensures stream.Valid() && (stream.data == old(stream.data) || fresh(stream.data))
    ensures stream.readOffset == old(stream.readOffset)
    ensures stream.Contents() == old(stream.Contents()) + ([false] + Flatten(input[..n]))
  {
    hide BitStream.Valid, BitStream.Contents, BitStream.Image, Flatten, Payload, BytesFor;
    ghost var before := stream.Contents();
    stream.Write0();
    stream.WriteBits(input, n * 8, true);
    WholeBytes(input, n, true);
    ConcatAssociates(before, [false], Flatten(input[..n]));
  }

  /** The low byte: one bit and four, or one bit and eight. */
  method WriteLowByte(stream: BitStream, input: seq<Byte>, unsignedData: bool)
    requires stream.Valid() && input != []
    modifies stream, stream.data
    ensures stream.Valid() && (stream.data == old(stream.data) || fresh(stream.data))
    ensures stream.readOffset == old(stream.readOffset)
    ensures stream.Contents() == old(stream.Contents()) + Compressed([input[0]], unsignedData)
  {
    hide BitStream.Valid, BitStream.Contents, BitStream.Image, Flatten, Unpack, Payload, BytesFor;
    HalfPayload(input);
    ghost var before := stream.Contents();
    if input[0] & 0xF0 == HalfByteMatch(unsignedData) {
      stream.Write1();
      stream.WriteBits(input, 4, true);
      ConcatAssociates(before, [true], Unpack(input[0])[4..]);
    } else {
      stream.Write0();
      stream.WriteBits(input, 8, true);
      ConcatAssociates(before, [false], Unpack(input[0]));
    }
  }

  lemma HalfPayload(input: seq<Byte>)
    requires input != []
    ensures Payload(input, 4, true) == Unpack(input[0])[4..]
    ensures Payload(input, 8, true) == Unpack(input[0])
  {
    hide Unpack;
    FlattenPush([], input[0]);
    assert input[..1] == [] + [input[0]];
  }

  /** Reads size/8 bytes in compressed form; fails exactly when the bits run out. */
  method ReadCompressed(stream: BitStream, output: array<Byte>, size: nat, unsignedData: bool) returns (ok: bool)
    requires stream.Valid() && output != stream.data && 8 <= size <= 8 * output.Length
    modifies stream`readOffset, output
    ensures stream.Valid() && stream.Contents() == old(stream.Contents())
    ensures var e := Expand(old(stream.Unread()), size / 8, unsignedData);
            && ok == e.Expanded?
            && (ok ==> output[..size / 8] == e.value && stream.readOffset == old(stream.readOffset) + e.used)
  {
    hide BitStream.Valid, BitStream.Unread, BitStream.Contents, BitStream.Image, PackBytes, PackRight, RightPacked;
    hide Expand, Fill, BytesFor, ByteMatch, WholeExpansion, LowExpansion, Flatten, Holds;
    var n := size / 8;
    ghost var e := Expand(stream.Unread(), n, unsignedData);
    var currentByte := n - 1;
    NothingLeftOut(e, unsignedData);
    assert output[..][n..n] == [];
    while currentByte > 0
      invariant 0 <= currentByte < n
      invariant stream.Valid() && stream.Contents() == old(stream.Contents())
      invariant output[..][currentByte + 1..n] == Fill(n - 1 - currentByte, unsignedData)
      invariant stream.readOffset == old(stream.readOffset) + (n - 1 - currentByte)
      invariant e == Extended(Expand(stream.Unread(), currentByte + 1, unsignedData), n - 1 - currentByte, unsignedData)
    {
      ghost var bits, k := stream.Unread(), n - 1 - currentByte;
      ExpandStep(bits, currentByte + 1, unsignedData);
      var got, b := stream.ReadBool();
      if !got {
        return false;
      }
      if b {
        FilledAt(output[..], currentByte, n, ByteMatch(unsignedData));
        output[currentByte] := ByteMatch(unsignedData);
        OneMoreLeftOut(Expand(bits[1..], currentByte, unsignedData), k, unsignedData);
        currentByte := currentByte - 1;
      } else {
        ok := ReadWholeBytes(stream, output, currentByte + 1, n, bits);
        return;
      }
    }
    ExpandStep(stream.Unread(), 1, unsignedData);
    ok := ReadLowByte(stream, output, n, unsignedData);
  }

  lemma FilledAt(d: seq<Byte>, i: nat, n: nat, b: Byte)
    requires i < n <= |d|
    ensures d[i := b][i..n] == [b] + d[i + 1..n]
  {
  }

  /** Bytes read below the place k, in front of bytes that stay. */
  lemma Rejoined(before: seq<Byte>, after: seq<Byte>, k: nat, n: nat)
    requires k <= n <= |before| == |after| && after[k..] == before[k..]
    ensures after[..n] == after[..k] + before[k..n]
  {
    assert after[k..n] == after[k..][..n - k] == before[k..][..n - k];
  }

  lemma NothingLeftOut(e: Expansion, unsignedData: bool)
    ensures Fill(0, unsignedData) == [] && Extended(e, 0, unsignedData) == e
  {
  }

  lemma OneMoreLeftOut(e: Expansion, k: nat, unsignedData: bool)
    ensures Fill(k + 1, unsignedData) == [ByteMatch(unsignedData)] + Fill(k, unsignedData)
    ensures Extended(Extended(e, 1, unsignedData), k, unsignedData) == Extended(e, k + 1, unsignedData)
  {
    if e.Expanded? {
      assert e.value + Fill(1, unsignedData) + Fill(k, unsignedData) == e.value + Fill(k + 1, unsignedData);
    }
  }

  /** Expand, one step unfolded. */
  lemma ExpandStep(bits: seq<bool>, n: nat, unsignedData: bool)
    requires n > 0
    ensures bits == [] ==> Expand(bits, n, unsignedData) == Short
    ensures bits != [] && n > 1 && bits[0] ==>
              Expand(bits, n, unsignedData) == Extended(Expand(bits[1..], n - 1, unsignedData), 1, unsignedData)
    ensures bits != [] && n > 1 && !bits[0] ==>
              Expand(bits, n, unsignedData) == WholeExpansion(bits, n)
    ensures bits != [] && n == 1 ==> Expand(bits, n, unsignedData) == LowExpansion(bits, unsignedData)
  {
  }

  function WholeExpansion(bits: seq<bool>, n: nat): Expansion {
    if |bits| < 8 * n + 1 then Short else Expanded(PackBytes(bits[1..8 * n + 1]), 8 * n + 1)
  }

  function LowExpansion(bits: seq<bool>, unsignedData: bool): Expansion
    requires bits != []
  {
    if bits[0] then
      if |bits| < 5 then Short else Expanded([PackRight(bits[1..5]) | HalfByteMatch(unsignedData)], 5)
    else if |bits| < 9 then Short
    else Expanded([Pack(bits[1..9])], 9)
  }

  /** The rest of the bytes after a 0 bit has been read; bits are those from that bit on. */
  method ReadWholeBytes(stream: BitStream, output: array<Byte>, n: nat, ghost all: nat, ghost bits: seq<bool>)
    returns (ok: bool)
    requires stream.Valid() && output != stream.data && n <= all <= output.Length
    requires bits != [] && stream.Unread() == bits[1..]
    modifies stream`readOffset, output
    ensures stream.Valid() && stream.Contents() == old(stream.Contents())
    ensures var e := WholeExpansion(bits, n);
            && ok == e.Expanded?
            && (ok ==> output[..all] == e.value + old(output[..][n..all]) &&
                       stream.readOffset == old(stream.readOffset) + e.used - 1)
  {
    hide BitStream.Valid, BitStream.Contents, BitStream.Image, PackBytes, RightPacked;
    ghost var before := output[..];
    ok := stream.ReadBits(output, 0, n * 8, true);
    if ok {
      assert bits[1..][..8 * n] == bits[1..8 * n + 1];
      assert output[0..n] == output[..n];
      Rejoined(before, output[..], n, all);
      WholeRightPacked(bits[1..8 * n + 1]);
    }
  }

  lemma WholeRightPacked(s: seq<bool>)
    requires |s| % 8 == 0
    ensures RightPacked(s) == PackBytes(s)
  {
    assert |s| / 8 * 8 == |s| && s[..|s|] == s;
  }

  /** The low byte, with its upper half put back if that was left out. */
  method ReadLowByte(stream: BitStream, output: array<Byte>, ghost all: nat, unsignedData: bool) returns (ok: bool)
    requires stream.Valid() && output != stream.data && 1 <= all <= output.Length
    modifies stream`readOffset, output
    ensures stream.Valid() && stream.Contents() == old(stream.Contents())
    ensures var bits := old(stream.Unread());
            if bits == [] then !ok
            else
              var e := LowExpansion(bits, unsignedData);
              && ok == e.Expanded?
              && (ok ==> output[..all] == e.value + old(output[..][1..all]) &&
                         stream.readOffset == old(stream.readOffset) + e.used)
  {
    hide BitStream.Valid, BitStream.Contents, BitStream.Image, PackBytes, PackRight, Pack, RightPacked, HalfByteMatch;
    ghost var bits, before := stream.Unread(), output[..];
    var got, b := stream.ReadBool();
    if !got {
      return false;
    }
    if b {
      ok := stream.ReadBits(output, 0, 4, true);
      if ok {
        assert bits[1..][..4] == bits[1..5];
        PackedShort(bits[1..5]);
        assert output[0..1][0] == PackRight(bits[1..5]);
        output[0] := output[0] | HalfByteMatch(unsignedData);
        Rejoined(before, output[..], 1, all);
      }
    } else {
      ok := stream.ReadBits(output, 0, 8, true);
      if ok {
        assert bits[1..][..8] == bits[1..9];
        WholeRightPacked(bits[1..9]);
        PackedByte(bits[1..9]);
        Rejoined(before, output[..], 1, all);
      }
    }
  }

  lemma PackedShort(s: seq<bool>)
    requires |s| == 4
    ensures RightPacked(s) == [PackRight(s)]
  {
    hide PackRight;
    assert |s| / 8 * 8 == 0 && s[0..] == s;
  }

  lemma PackedByte(s: seq<bool>)
    requires |s| == 8
    ensures PackBytes(s) == [Pack(s)]
  {
    hide Pack;
    assert s[0..] == s;
  }

  // ----- round trip

  /** An upper half byte that matches can be put back. */
  lemma HalfByteRestored(b: Byte, unsignedData: bool)
    requires b & 0xF0 == HalfByteMatch(unsignedData)
    ensures PackRight(Unpack(b)[4..]) | HalfByteMatch(unsignedData) == b
  {
    LowHalf(b);
  }

  lemma LowHalf(b: Byte)
    ensures PackRight(Unpack(b)[4..]) == b & 0x0F
  {
    hide Unpack, Pack;
    var c := b & 0x0F;
    forall i | 0 <= i < 8
      ensures Unpack(c)[i] == (Falses(4) + Unpack(b)[4..])[i]
    {
      LowHalfBit(b, i);
    }
    assert Unpack(c) == Falses(8 - 4) + Unpack(b)[4..];
    PackUnpack(c);
  }

  lemma LowHalfBit(b: Byte, i: nat)
    requires i < 8
    ensures Unpack(b & 0x0F)[i] == (i >= 4 && Unpack(b)[i])
  {
    Masks();
  }

  /** Reading a compressed integer gives it back and takes exactly its bits, whatever follows. */
  lemma {:induction false} CompressedRoundTrip(v: seq<Byte>, unsignedData: bool, rest: seq<bool>)
    requires v != []
    ensures Expand(Compressed(v, unsignedData) + rest, |v|, unsignedData)
         == Expanded(v, |Compressed(v, unsignedData)|)
  {
    hide *;
    var k := |v| - 1;
    if k > 0 {
      if v[k] == ByteMatch(unsignedData) {
        CompressedRoundTrip(v[..k], unsignedData, rest);
        HighByteLeftOut(v, unsignedData, rest);
      } else {
        HighByteKept(v, unsignedData, rest);
      }
    } else {
      LowByteRoundTrip(v, unsignedData, rest);
    }
  }

  lemma HighByteLeftOut(v: seq<Byte>, unsignedData: bool, rest: seq<bool>)
    requires |v| > 1 && v[|v| - 1] == ByteMatch(unsignedData)
    requires var w := v[..|v| - 1];
             Expand(Compressed(w, unsignedData) + rest, |w|, unsignedData) == Expanded(w, |Compressed(w, unsignedData)|)
    ensures Expand(Compressed(v, unsignedData) + rest, |v|, unsignedData)
         == Expanded(v, |Compressed(v, unsignedData)|)
  {
    hide Unpack, Pack, PackRight, Flatten, PackBytes, HalfByteMatch, ByteMatch, Expand;
    var w := v[..|v| - 1];
    assert Compressed(v, unsignedData) + rest == [true] + (Compressed(w, unsignedData) + rest);
    ExpandStep(Compressed(v, unsignedData) + rest, |v|, unsignedData);
    assert (Compressed(v, unsignedData) + rest)[1..] == Compressed(w, unsignedData) + rest;
    assert v == w + Fill(1, unsignedData);
  }

  lemma HighByteKept(v: seq<Byte>, unsignedData: bool, rest: seq<bool>)
    requires |v| > 1 && v[|v| - 1] != ByteMatch(unsignedData)
    ensures Expand(Compressed(v, unsignedData) + rest, |v|, unsignedData)
         == Expanded(v, |Compressed(v, unsignedData)|)
  {
    hide Unpack, Pack, PackRight, Flatten, PackBytes, HalfByteMatch, ByteMatch;
    var c := Compressed(v, unsignedData);
    assert c + rest == [false] + Flatten(v) + rest;
    ExpandStep(c + rest, |v|, unsignedData);
    assert (c + rest)[1..8 * |v| + 1] == Flatten(v);
    FlattenPackBytes(Flatten(v));
    FlattenInjective(PackBytes(Flatten(v)), v);
  }

  lemma LowByteRoundTrip(v: seq<Byte>, unsignedData: bool, rest: seq<bool>)
    requires |v| == 1
    ensures Expand(Compressed(v, unsignedData) + rest, |v|, unsignedData)
         == Expanded(v, |Compressed(v, unsignedData)|)
  {
    hide Unpack, Pack, PackRight, Flatten, PackBytes, HalfByteMatch;
    var c := Compressed(v, unsignedData);
    assert v == [v[0]];
    if v[0] & 0xF0 == HalfByteMatch(unsignedData) {
      assert (c + rest)[1..5] == Unpack(v[0])[4..];
      HalfByteRestored(v[0], unsignedData);
    } else {
      assert (c + rest)[1..9] == Unpack(v[0]);
      PackUnpack(v[0]);
    }
  }

  /** Compression never costs more than one bit, and at best leaves half a byte and a bit per byte. */
  lemma {:induction false} CompressedLength(v: seq<Byte>, unsignedData: bool)
    requires v != []
    ensures |v| + 4 <= |Compressed(v, unsignedData)| <= 8 * |v| + 1
  {
    hide Unpack, Flatten;
    var k := |v| - 1;
    if k > 0 && v[k] == ByteMatch(unsignedData) {
      CompressedLength(v[..k], unsignedData);
    }
  }

  // ----- what is left out

  function Repeated(b: Byte, k: nat): (s: seq<Byte>)
    ensures |s| == k
  {
    seq(k, _ => b)
  }

  function Trues(n: nat): (s: seq<bool>)
    ensures |s| == n && forall i :: 0 <= i < n ==> s[i]
  {
    seq(n, _ => true)
  }

  /** Each high zero byte of an unsigned integer, or 0xFF of a signed one, shrinks to a 1 bit. */
  lemma {:induction false} HighBytesShrink(v: seq<Byte>, k: nat, unsignedData: bool)
    requires v != []
    ensures Compressed(v + Repeated(if unsignedData then 0 else 0xFF, k), unsignedData)
         == Trues(k) + Compressed(v, unsignedData)
  {
    hide Flatten, Unpack, HalfByteMatch;
    var b: Byte := if unsignedData then 0 else 0xFF;
    var w := v + Repeated(b, k);
    if k == 0 {
      assert w == v;
    } else {
      assert w[..|w| - 1] == v + Repeated(b, k - 1) && w[|w| - 1] == b;
      HighBytesShrink(v, k - 1, unsignedData);
      hide Repeated;
      OneMoreTrue(k - 1, Compressed(v, unsignedData));
    }
  }

  lemma OneMoreTrue(k: nat, s: seq<bool>)
    ensures Trues(k + 1) + s == [true] + (Trues(k) + s)
  {
  }

  /** With any other high byte, all bytes are written behind a 0 bit. */
  lemma OtherBytesStay(v: seq<Byte>, unsignedData: bool)
    requires |v| > 1 && v[|v| - 1] != if unsignedData then 0 else 0xFF
    ensures Compressed(v, unsignedData) == [false] + Flatten(v)
  {
    hide Flatten, Unpack, HalfByteMatch;
  }

  /** A single byte takes four bits behind a 1 exactly if it is below 16, or signed and from -16 to -1. */
  lemma LowByteShrinks(b: Byte, unsignedData: bool)
    ensures Compressed([b], unsignedData)
         == if (if unsignedData then b < 16 else b >= 0xF0) then [true] + Unpack(b)[4..] else [false] + Unpack(b)
  {
    hide Unpack;
    UpperHalf(b);
  }

  lemma UpperHalf(b: Byte)
    ensures b & 0xF0 == 0 <==> b < 16
    ensures b & 0xF0 == 0xF0 <==> b >= 0xF0
  {
  }

  /** How many bits an integer takes, by the number of its high bytes that shrink. */
  lemma CompressedSize(v: seq<Byte>, k: nat, unsignedData: bool)
    requires v != [] && (|v| == 1 || v[|v| - 1] != if unsignedData then 0 else 0xFF)
    ensures |Compressed(v + Repeated(if unsignedData then 0 else 0xFF, k), unsignedData)|
         == k + if |v| > 1 then 8 * |v| + 1
                else if (if unsignedData then v[0] < 16 else v[0] >= 0xF0) then 5 else 9
  {
    hide Compressed, Flatten, Unpack;
    HighBytesShrink(v, k, unsignedData);
    if |v| == 1 {
      assert v == [v[0]];
      LowByteShrinks(v[0], unsignedData);
    } else {
      OtherBytesStay(v, unsignedData);
    }
  }

  /** The bits of a 16-bit length of five, as a string of that length is announced with. */
  lemma FiveInSixBits()
    ensures Compressed([5, 0], true) == [true, true, false, true, false, true]
  {
    HighBytesShrink([5], 1, true);
    LowByteShrinks(5, true);
    assert [5 as Byte] + Repeated(0, 1) == [5, 0];
    hide Compressed;
    UnpackedFive();
    assert Trues(1) == [true];
  }

  lemma UnpackedFive()
    ensures Unpack(5)[4..] == [false, true, false, true]
  {
    Masks();
    hide Shr;
    assert forall i :: 0 <= i < 4 ==> Unpack(5)[4..][i] == Bit(5, i + 4);
  }
}

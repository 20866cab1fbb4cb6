/**
 * The growing bit stream.  A stream stands for the sequence of bits written to
 * it, of which those up to the read offset have been read.
 */
module BitStreams {
  import opened Bits
  import opened BitLayout

  class BitStream {
    var numberOfBitsUsed: nat
    var numberOfBitsAllocated: nat
    var readOffset: nat
    var data: array<Byte>

    /** The bytes in use. */
    ghost function Image(): seq<Byte>
      requires BytesFor(numberOfBitsUsed) <= data.Length
      reads this, data
    {
      data[..BytesFor(numberOfBitsUsed)]
    }

    /** The bits written so far. */
    ghost function Contents(): (s: seq<bool>)
      requires BytesFor(numberOfBitsUsed) <= data.Length
      reads this, data
      ensures |s| == numberOfBitsUsed
    {
      Flatten(Image())[..numberOfBitsUsed]
    }

    /** What reading single bits relies on. */
    ghost predicate Readable()
      reads this, data
      ensures Readable() ==> readOffset <= numberOfBitsUsed && BytesFor(numberOfBitsUsed) <= data.Length
    {
      && BytesFor(numberOfBitsAllocated) <= data.Length
      && numberOfBitsUsed <= numberOfBitsAllocated
      && readOffset <= numberOfBitsUsed
    }

    /** Besides, the unused bits of the last byte are zero, which writing relies on. */
    ghost predicate Valid()
      reads this, data
      ensures Valid() ==> readOffset <= numberOfBitsUsed && BytesFor(numberOfBitsUsed) <= data.Length
    {
      Readable() && Holds(Image(), Contents())
    }

    constructor (initialBytesToAllocate: nat)
      ensures Valid() && fresh(data) && Contents() == [] && readOffset == 0
    {
      numberOfBitsUsed := 0;
      numberOfBitsAllocated := initialBytesToAllocate * 8;
      readOffset := 0;
      data := new Byte[initialBytesToAllocate];
    }

    /** Forgets the contents but keeps the memory. */
    method Reset()
      requires Valid()
      modifies this`numberOfBitsUsed, this`readOffset
      ensures Valid() && Contents() == [] && readOffset == 0
    {
      numberOfBitsUsed := 0;
      readOffset := 0;
    }

    /** Fills an empty stream with the given bits. */
    method SetData(input: seq<Byte>, numberOfBits: nat)
      requires Valid() && numberOfBitsUsed == 0 && numberOfBits <= 8 * |input|
      modifies this, data
      ensures Readable() && (data == old(data) || fresh(data))
      ensures numberOfBitsUsed == numberOfBits && readOffset == 0
      ensures Contents() == Flatten(input)[..numberOfBits]
    {
      if numberOfBits > 0 {
        AddBitsAndReallocate(numberOfBits);
        var k := BytesFor(numberOfBits);
        forall i | 0 <= i < k {
          data[i] := input[i];
        }
        numberOfBitsUsed := numberOfBits;
        assert data[..k] == input[..k];
        FlattenAppend(input[..k], input[k..]);
        assert input == input[..k] + input[k..];
      }
    }

    /** Hands out a copy of the bytes, and the length in bits. */
    method CopyData() returns (copy: seq<Byte>, bits: nat)
      requires Valid()
      ensures bits == numberOfBitsUsed && Holds(copy, Contents())
    {
      return data[..BytesFor(numberOfBitsUsed)], numberOfBitsUsed;
    }

    /** Makes room for n more bits; the contents stay. */
    method AddBitsAndReallocate(n: int)
      requires Valid()
      modifies this`data, this`numberOfBitsAllocated
      ensures Valid() && (data == old(data) || fresh(data))
      ensures Contents() == old(Contents())
      ensures numberOfBitsUsed + n <= numberOfBitsAllocated
    {
      if n <= 0 {
        return;
      }
      var newNumberOfBitsAllocated := n + numberOfBitsUsed;
      if newNumberOfBitsAllocated > 0 && (numberOfBitsAllocated - 1) / 8 < (newNumberOfBitsAllocated - 1) / 8 {
        newNumberOfBitsAllocated := (n + numberOfBitsUsed) * 2;
        var bigger := new Byte[BytesFor(newNumberOfBitsAllocated)];
        forall i | 0 <= i < bigger.Length && i < data.Length {
          bigger[i] := data[i];
        }
        assert bigger[..BytesFor(numberOfBitsUsed)] == Image();
        data := bigger;
      }
      if newNumberOfBitsAllocated > numberOfBitsAllocated {
        numberOfBitsAllocated := newNumberOfBitsAllocated;
      }
    }

    /** Stores b behind the bits in use, over one or two bytes. */
    method StoreByte(b: Byte, r: nat, mod8: nat)
      requires BytesFor(numberOfBitsUsed + r) <= data.Length && 0 < r <= 8
      requires mod8 == numberOfBitsUsed % 8
      modifies data, this`numberOfBitsUsed
      ensures numberOfBitsUsed == old(numberOfBitsUsed) + r
      ensures BytesFor(numberOfBitsUsed) <= data.Length
      ensures Image() == Spliced(old(Image()), old(numberOfBitsUsed), b, r)
    {
      hide Flatten;
      SplicedLength(numberOfBitsUsed, r);
      var k := numberOfBitsUsed / 8;
      if mod8 == 0 {
        data[k] := b;
      } else {
        data[k] := data[k] | Shr(b, mod8);
        if 8 - mod8 < 8 && 8 - mod8 < r {
          data[k + 1] := Shl(b, 8 - mod8);
        }
      }
      numberOfBitsUsed := numberOfBitsUsed + r;
    }

    /** Storing a byte appends its first r bits. */
    method AppendByte(b: Byte, r: nat, mod8: nat)
      requires BytesFor(numberOfBitsUsed + r) <= data.Length && 0 < r <= 8
      requires mod8 == numberOfBitsUsed % 8 && Holds(Image(), Contents())
      modifies data, this`numberOfBitsUsed
      ensures numberOfBitsUsed == old(numberOfBitsUsed) + r
      ensures BytesFor(numberOfBitsUsed) <= data.Length && (Holds(Image(), Contents()) <==> Clean(b, r, mod8))
      ensures Contents() == old(Contents()) + Unpack(b)[..r]
    {
      hide Flatten, Unpack, Shl, Shr, Spliced, Clean, Holds, Begins;
      ghost var d, t := Image(), Contents();
      SplicedHolds(d, t, b, r);
      StoreByte(b, r, mod8);
      BegunContents(Image(), t + Unpack(b)[..r]);
    }

    /**
     * Appends n bits of the input; partial bytes are taken from the right or
     * from the left.  In the latter case what stands behind the bits in the
     * last byte is stored, too, and needs to be zero for later writing.
     */
    method WriteBits(input: seq<Byte>, n: nat, rightAligned: bool)
      requires Valid() && n <= 8 * |input|
      modifies this, data
      ensures Readable() && (data == old(data) || fresh(data))
      ensures Valid() <==> rightAligned || LeavesCleanTail(input, n, old(numberOfBitsUsed))
      ensures readOffset == old(readOffset)
      ensures Contents() == old(Contents()) + Payload(input, n, rightAligned)
    {
      hide Flatten, Unpack, Payload, Shl, Shr, Holds, LeavesCleanTail, BytesFor, Written, Clean;
      RoomFor(numberOfBitsUsed, numberOfBitsAllocated);
      ghost var s := Contents();
      AddBitsAndReallocate(n);
      var offset: nat := 0;
      var remaining: int := n;
      var mod8 := numberOfBitsUsed % 8;
      EmptyPayload(input, n, rightAligned);
      WholeIsClean(input, n, |s|);
      RoomFor(numberOfBitsUsed, numberOfBitsAllocated);
      while remaining > 0
        invariant remaining == n - 8 * offset
        invariant |s| + n <= numberOfBitsAllocated && BytesFor(numberOfBitsAllocated) <= data.Length
        invariant BytesFor(numberOfBitsUsed) <= data.Length
        invariant numberOfBitsUsed == |s| + Written(n, offset)
        invariant Holds(Image(), Contents()) <==>
                  remaining > 0 || rightAligned || LeavesCleanTail(input, n, |s|)
        invariant Written(n, offset) <= n
        invariant Contents() == s + Payload(input, Written(n, offset), rightAligned)
        invariant readOffset == old(readOffset) <= |s|
        invariant data == old(data) || fresh(data)
      {
        var dataByte := input[offset];
        if remaining < 8 && rightAligned {
          dataByte := Shl(dataByte, 8 - remaining);
        }
        var r := if remaining >= 8 then 8 else remaining;
        NextPayload(input, n, offset, rightAligned, |s|);
        RoomFor(numberOfBitsUsed + r, numberOfBitsAllocated);
        AppendByte(dataByte, r, mod8);
        ConcatAssociates(s, Payload(input, Written(n, offset), rightAligned), Unpack(dataByte)[..r]);
        remaining := remaining - 8;
        offset := offset + 1;
      }
      AllWritten(n, offset);
    }

    /** Appends a 0; new bytes need to be cleared. */
    method Write0()
      requires Valid()
      modifies this, data
      ensures Valid() && (data == old(data) || fresh(data))
      ensures readOffset == old(readOffset)
      ensures Contents() == old(Contents()) + [false]
    {
      hide Flatten, Unpack, Shl, Shr, Holds, Spliced, BytesFor;
      AddBitsAndReallocate(1);
      RoomFor(numberOfBitsUsed + 1, numberOfBitsAllocated);
      ghost var d, t := Image(), Contents();
      SplicedBit(d, numberOfBitsUsed, 0);
      if numberOfBitsUsed % 8 == 0 {
        data[numberOfBitsUsed / 8] := 0;
      }
      ZeroByte(numberOfBitsUsed % 8);
      CleanIf(0, 1, numberOfBitsUsed % 8);
      numberOfBitsUsed := numberOfBitsUsed + 1;
      assert Image() == Spliced(d, |t|, 0, 1);
      SplicedHolds(d, t, 0, 1);
      HeldContents(Image(), t + [false]);
    }

    /** Appends a 1. */
    method Write1()
      requires Valid()
      modifies this, data
      ensures Valid() && (data == old(data) || fresh(data))
      ensures readOffset == old(readOffset)
      ensures Contents() == old(Contents()) + [true]
    {
      hide Flatten, Unpack, Shl, Shr, Holds, Spliced, BytesFor;
      AddBitsAndReallocate(1);
      RoomFor(numberOfBitsUsed + 1, numberOfBitsAllocated);
      ghost var d, t := Image(), Contents();
      SplicedBit(d, numberOfBitsUsed, 0x80);
      var mod8 := numberOfBitsUsed % 8;
      if mod8 == 0 {
        data[numberOfBitsUsed / 8] := 0x80;
      } else {
        data[numberOfBitsUsed / 8] := data[numberOfBitsUsed / 8] | Shr(0x80, mod8);
      }
      TopBitByte();
      CleanIf(0x80, 1, mod8);
      numberOfBitsUsed := numberOfBitsUsed + 1;
      assert Image() == Spliced(d, |t|, 0x80, 1);
      SplicedHolds(d, t, 0x80, 1);
      HeldContents(Image(), t + [true]);
    }

    /** The bits not yet read. */
    ghost function Unread(): seq<bool>
      requires Valid()
      reads this, data
    {
      Contents()[readOffset..]
    }

    /** Takes one bit; the caller has to know that there is one. */
    method ReadBit() returns (b: bool)
      requires Readable() && readOffset < numberOfBitsUsed
      modifies this`readOffset
      ensures Readable() && (old(Valid()) ==> Valid()) && Contents() == old(Contents())
      ensures readOffset == old(readOffset) + 1
      ensures b == Contents()[old(readOffset)]
    {
      hide Flatten;
      BitOfBytes(Image(), readOffset);
      b := data[readOffset / 8] & Shr(0x80, readOffset % 8) != 0;
      readOffset := readOffset + 1;
    }

    /** Read( bool ): takes one bit if there is one. */
    method ReadBool() returns (ok: bool, b: bool)
      requires Valid()
      modifies this`readOffset
      ensures Valid() && Contents() == old(Contents())
      ensures ok == (old(Unread()) != [])
      ensures readOffset == old(readOffset) + if ok then 1 else 0
      ensures ok ==> b == old(Unread())[0] && Unread() == old(Unread())[1..]
    {
      hide Flatten, Holds;
      if readOffset + 1 > numberOfBitsUsed {
        return false, false;
      }
      b := ReadBit();
      ok := true;
    }

    /** Ors the two parts of the byte at the read offset into a cleared output byte. */
    method GatherByte(output: array<Byte>, index: nat, remaining: nat, readOffsetMod8: nat)
      requires BytesFor(numberOfBitsUsed) <= data.Length
      requires output != data && index < output.Length && output[index] == 0
      requires remaining > 0 && readOffset + remaining <= 8 * BytesFor(numberOfBitsUsed)
      requires readOffsetMod8 == readOffset % 8
      modifies output
      ensures output[..] == old(output[..])[index := Gathered(Image(), readOffset, remaining)]
    {
      hide Shl, Shr, Gathered;
      var q := readOffset / 8;
      GatheredParts(Image(), readOffset, remaining);
      OrZero(Shl(data[q], readOffsetMod8));
      output[index] := output[index] | Shl(data[q], readOffsetMod8);
      if readOffsetMod8 > 0 && remaining > 8 - readOffsetMod8 {
        output[index] := output[index] | Shr(data[q + 1], 8 - readOffsetMod8);
      }
    }

    /** Puts one byte, or the partial last byte, moved to the right or not, into the output. */
    method ReadByte(output: array<Byte>, index: nat, remaining: nat, readOffsetMod8: nat, alignBitsToRight: bool)
      requires Valid() && output != data && index < output.Length && output[index] == 0
      requires remaining > 0 && readOffset + remaining <= numberOfBitsUsed
      requires readOffsetMod8 == readOffset % 8
      modifies this`readOffset, output
      ensures Valid() && Contents() == old(Contents())
      ensures var r := if remaining >= 8 then 8 else remaining;
              && readOffset == old(readOffset) + r
              && output[..] == old(output[..])[index := output[index]]
              && ByteTakes(output[index], old(Contents())[old(readOffset)..old(readOffset) + r], alignBitsToRight)
    {
      hide Flatten, Unpack, Shl, Shr, Pack, PackRight, Holds, Gathered;
      ghost var r := if remaining >= 8 then 8 else remaining;
      ghost var b := Gathered(Image(), readOffset, remaining);
      assert Unpack(b)[..r] == Contents()[readOffset..readOffset + r] by {
        GatheredBits(Image(), readOffset, remaining);
        SliceOfSlice(Flatten(Image()), 0, numberOfBitsUsed, readOffset, readOffset + r);
      }
      MovedRight(b, r);
      GatherByte(output, index, remaining, readOffsetMod8);
      if remaining < 8 {
        if alignBitsToRight {
          output[index] := Shr(output[index], 8 - remaining);
        }
        readOffset := readOffset + remaining;
      } else {
        WholeShift(output[index]);
        readOffset := readOffset + 8;
      }
    }

    /** Takes n bits into the output bytes from `at` on, if there are as many. */
    method ReadBits(output: array<Byte>, at: nat, n: nat, alignBitsToRight: bool) returns (ok: bool)
      requires Valid() && output != data && at + BytesFor(n) <= output.Length
      modifies this`readOffset, output
      ensures Valid() && Contents() == old(Contents())
      ensures ok == (old(readOffset) + n <= numberOfBitsUsed)
      ensures !ok ==> readOffset == old(readOffset) && output[..] == old(output[..])
      ensures ok ==> readOffset == old(readOffset) + n
      ensures ok ==> Takes(output[at..at + BytesFor(n)], old(Unread())[..n], alignBitsToRight)
      ensures output[..at] == old(output[..at]) && output[at + BytesFor(n)..] == old(output[at + BytesFor(n)..])
    {
      hide Flatten, Holds, Takes;
      if readOffset + n > numberOfBitsUsed {
        return false;
      }
      forall i | at <= i < at + BytesFor(n) {
        output[i] := 0;
      }
      assert Unread()[..n] == Contents()[readOffset..readOffset + n];
      ReadRounds(output, at, n, alignBitsToRight, BytesFor(n));
      ok := true;
    }

    /** One turn of the loop of ReadBits. */
    method ReadRound(output: array<Byte>, at: nat, offset: nat, remaining: nat, readOffsetMod8: nat,
                     alignBitsToRight: bool, ghost d0: seq<Byte>, ghost s: seq<bool>, ghost bytes: nat)
      returns (ghost d: seq<Byte>)
      requires Valid() && output != data && offset < bytes && ClearedFrom(d0, output[..], at, offset, bytes)
      requires 0 < remaining == |s| - 8 * offset && readOffsetMod8 == readOffset % 8
      requires readOffset + remaining <= numberOfBitsUsed == |Contents()| && 8 * offset <= readOffset
      requires s == Contents()[readOffset - 8 * offset..readOffset + remaining]
      requires Takes(output[..][at..at + offset], s[..8 * offset], alignBitsToRight)
      modifies this`readOffset, output
      ensures Valid() && Contents() == old(Contents())
      ensures readOffset == old(readOffset) + if remaining >= 8 then 8 else remaining
      ensures d == output[..] && ClearedFrom(d0, d, at, offset + 1, bytes)
      ensures Takes(d[at..at + offset + 1], s[..Written(|s|, offset + 1)], alignBitsToRight)
    {
      hide *;
      ghost var r := if remaining >= 8 then 8 else remaining;
      ghost var was, all := output[..], Contents();
      StillCleared(d0, was, at, offset, bytes);
      SliceOfSlice(all, readOffset - 8 * offset, readOffset + remaining, 8 * offset, 8 * offset + r);
      ReadByte(output, at + offset, remaining, readOffsetMod8, alignBitsToRight);
      ghost var b := output[at + offset];
      NextCleared(d0, was, at, offset, bytes, b);
      NextTaken(was[at..at + offset], s, offset, b, alignBitsToRight);
      d := output[..];
    }

    /** The loop of ReadBits, over cleared output bytes. */
    method ReadRounds(output: array<Byte>, at: nat, n: nat, alignBitsToRight: bool, ghost bytes: nat)
      requires Valid() && BytesFor(numberOfBitsUsed) <= data.Length
      requires output != data && at + bytes <= output.Length && n <= 8 * bytes < n + 8
      requires forall i :: at <= i < at + bytes ==> output[i] == 0
      requires readOffset + n <= numberOfBitsUsed
      modifies this`readOffset, output
      ensures Valid() && Contents() == old(Contents())
      ensures readOffset == old(readOffset) + n
      ensures Takes(output[at..at + bytes], old(Contents())[old(readOffset)..old(readOffset) + n], alignBitsToRight)
      ensures output[..at] == old(output[..at]) && output[at + bytes..] == old(output[at + bytes..])
    {
      hide *;
      AllCleared(output[..], at, bytes);
      ghost var all, start := Contents(), readOffset;
      ghost var s := all[start..start + n];
      ghost var d0, d := output[..], output[..];
      var remaining: int := n;
      var offset: nat := 0;
      var readOffsetMod8 := readOffset % 8;
      AllWritten(n, 0);
      NothingTaken(alignBitsToRight);
      assert d[at..at] == [] && s[..0] == [];
      while remaining > 0
        invariant Valid() && Contents() == all && |all| == numberOfBitsUsed
        invariant remaining == n - 8 * offset && offset <= bytes
        invariant output[..] == d && ClearedFrom(d0, d, at, offset, bytes)
        invariant Written(n, offset) <= n && readOffset == start + Written(n, offset)
        invariant Takes(d[at..at + offset], s[..Written(n, offset)], alignBitsToRight)
      {
        NextRightPacked(s, offset);
        d := ReadRound(output, at, offset, remaining, readOffsetMod8, alignBitsToRight, d0, s, bytes);
        remaining := remaining - 8;
        offset := offset + 1;
      }
      AllWritten(n, offset);
      NoneCleared(d0, d, at, bytes);
      assert offset == bytes && s[..n] == s;
    }
  }

  /** The bytes from offset on are cleared yet, and those outside are as they were. */
  ghost predicate ClearedFrom(d0: seq<Byte>, d: seq<Byte>, at: nat, offset: nat, bytes: nat) {
    && |d| == |d0| && offset <= bytes && at + bytes <= |d|
    && (forall i :: at + offset <= i < at + bytes ==> d[i] == 0)
    && d[..at] == d0[..at] && d[at + bytes..] == d0[at + bytes..]
  }

  lemma StillCleared(d0: seq<Byte>, d: seq<Byte>, at: nat, offset: nat, bytes: nat)
    requires ClearedFrom(d0, d, at, offset, bytes) && offset < bytes
    ensures at + offset < |d| && d[at + offset] == 0
  {
  }

  lemma NextCleared(d0: seq<Byte>, d: seq<Byte>, at: nat, offset: nat, bytes: nat, b: Byte)
    requires ClearedFrom(d0, d, at, offset, bytes) && offset < bytes
    ensures at + offset < |d|
    ensures var e := d[at + offset := b];
            ClearedFrom(d0, e, at, offset + 1, bytes) && e[at..at + offset + 1] == d[at..at + offset] + [b]
  {
  }

  lemma AllCleared(d: seq<Byte>, at: nat, bytes: nat)
    requires at + bytes <= |d| && forall i :: at <= i < at + bytes ==> d[i] == 0
    ensures ClearedFrom(d, d, at, 0, bytes)
  {
  }

  lemma NoneCleared(d0: seq<Byte>, d: seq<Byte>, at: nat, bytes: nat)
    requires ClearedFrom(d0, d, at, bytes, bytes)
    ensures d[..at] == d0[..at] && d[at + bytes..] == d0[at + bytes..]
  {
  }

  lemma OrZero(b: Byte)
    ensures 0 | b == b
  {
  }

  lemma WholeShift(b: Byte)
    ensures Shr(b, 0) == b
  {
  }
}

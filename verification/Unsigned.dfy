/** A 32-bit number in memory: four bytes, the lowest first. */
module Unsigned {
  import opened Bits

  const UNSIGNED_RANGE := 0x1_0000_0000

  /** The lowest byte of a number. */
  function LowByte(n: nat): Byte {
    (n % 256) as Byte
  }

  function ValueOf(b: Byte): nat {
    b as nat
  }

  function FourBytes(n: nat): (d: seq<Byte>)
    ensures |d| == 4
  {
    [LowByte(n), LowByte(n / 0x100), LowByte(n / 0x1_0000), LowByte(n / 0x100_0000)]
  }

  function NumberOf(d: seq<Byte>): nat
    requires |d| == 4
  {
    ValueOf(d[0]) + 0x100 * ValueOf(d[1]) + 0x1_0000 * ValueOf(d[2]) + 0x100_0000 * ValueOf(d[3])
  }

  function ShortBytes(n: nat): (d: seq<Byte>)
    ensures |d| == 2
  {
    [LowByte(n), LowByte(n / 0x100)]
  }

  function ShortOf(d: seq<Byte>): nat
    requires |d| == 2
  {
    ValueOf(d[0]) + 0x100 * ValueOf(d[1])
  }

  function PowerOf256(i: nat): nat {
    if i == 0 then 1 else 256 * PowerOf256(i - 1)
  }

  /** Byte i of a number in memory is its digit i to the base 256, counted from the lowest. */
  lemma LowestFirst(n: nat, i: nat)
    requires i < 4
    ensures PowerOf256(i) > 0 && ValueOf(FourBytes(n)[i]) == n / PowerOf256(i) % 256
    ensures i < 2 ==> ShortBytes(n)[i] == FourBytes(n)[i]
  {
    hide LowByte, ValueOf;
    ByteBack(n);
    ByteBack(n / 0x100);
    ByteBack(n / 0x1_0000);
    ByteBack(n / 0x100_0000);
    assert PowerOf256(0) == 1 && PowerOf256(1) == 0x100;
    assert PowerOf256(2) == 0x1_0000 && PowerOf256(3) == 0x100_0000;
  }

  /** A number that is too long for four bytes, or for two, comes back without its upper part. */
  lemma NumberBack(n: nat)
    ensures NumberOf(FourBytes(n)) == n % UNSIGNED_RANGE
  {
    hide LowByte, ValueOf;
    ByteBack(n);
    ByteBack(n / 0x100);
    ByteBack(n / 0x1_0000);
    ByteBack(n / 0x100_0000);
    Digits(n);
  }

  lemma ShortBack(n: nat)
    ensures ShortOf(ShortBytes(n)) == n % 0x1_0000
  {
    hide LowByte, ValueOf;
    ByteBack(n);
    ByteBack(n / 0x100);
    ShortDigits(n);
  }

  lemma ByteBack(n: nat)
    ensures ValueOf(LowByte(n)) == n % 256
  {
    Back(n % 256);
  }

  lemma Back(v: nat)
    requires v < 256
    ensures (v as Byte) as nat == v
  {
    var b := ByteFor(v);
    ToNumberAndBack(b);
  }

  lemma {:induction false} ByteFor(v: nat) returns (b: Byte)
    requires v < 256
    ensures b as nat == v
  {
    if v == 0 {
      b := 0;
    } else {
      b := ByteFor(v - 1);
      NextByte(b);
      b := b + 1;
    }
  }

  lemma NextByte(b: Byte)
    requires b != 255
    ensures (b + 1) as nat == b as nat + 1
  {
  }

  lemma ToNumberAndBack(b: Byte)
    ensures (b as nat) as Byte == b
  {
  }

  lemma ByteAndBack(b: Byte)
    ensures LowByte(b as int) == b
  {
    SmallByte(b as int);
    ToNumberAndBack(b);
  }

  lemma SmallByte(v: nat)
    requires v < 256
    ensures LowByte(v) == v as Byte
  {
    assert v % 256 == v;
  }

  lemma ShortDigits(n: nat)
    ensures n % 256 + 0x100 * (n / 0x100 % 256) == n % 0x1_0000
  {
    var a := n / 0x100;
    assert a == 0x100 * (n / 0x1_0000) + a % 0x100;
  }

  lemma Digits(n: nat)
    ensures n % 256 + 0x100 * (n / 0x100 % 256) + 0x1_0000 * (n / 0x1_0000 % 256) + 0x100_0000 * (n / 0x100_0000 % 256)
         == n % UNSIGNED_RANGE
  {
    var a, b, c := n / 0x100, n / 0x1_0000, n / 0x100_0000;
    assert a == 0x100 * b + a % 0x100;
    assert b == 0x100 * c + b % 0x100;
    assert c == 0x100 * (n / UNSIGNED_RANGE) + c % 0x100;
  }
}

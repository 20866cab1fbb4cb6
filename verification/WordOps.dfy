/** The C operators on 32-bit words that the big-integer loops use. */
module WordOps {
  import opened PowerOfTwo
  import opened Words

  const HALF := 0x8000_0000

  /** Left shift: bits beyond the word are lost. */
  function Shl(w: Word, k: nat): Word {
    (w * Pow2(k)) % BASE
  }

  function Shr(w: Word, k: nat): Word {
    ShrBound(w, k);
    w / Pow2(k)
  }

  function Not(w: Word): Word {
    BASE - 1 - w
  }

  /** Bitwise or, from the low bit up. */
  function BitOr(x: nat, y: nat): nat {
    if x == 0 then y
    else if y == 0 then x
    else 2 * BitOr(x / 2, y / 2) + (if x % 2 == 1 || y % 2 == 1 then 1 else 0)
  }

  function Or(x: Word, y: Word): Word {
    Pow2Of32();
    BitOrBound(x, y, 32);
    BitOr(x, y)
  }

  lemma ShrBound(w: Word, k: nat)
    ensures 0 <= w / Pow2(k) <= w
  {
    DivBound(w, Pow2(k));
  }

  lemma {:induction false} BitOrBound(x: nat, y: nat, k: nat)
    requires x < Pow2(k) && y < Pow2(k)
    ensures BitOr(x, y) < Pow2(k)
    decreases k
  {
    if x != 0 && y != 0 {
      BitOrBound(x / 2, y / 2, k - 1);
    }
  }

  /** Or of words without a common bit is their sum. */
  lemma {:induction false} BitOrDisjoint(m: nat, y: nat, k: nat)
    requires y < Pow2(k)
    ensures BitOr(m * Pow2(k), y) == m * Pow2(k) + y
    decreases k
  {
    if k > 0 && m * Pow2(k) != 0 && y != 0 {
      var h := m * Pow2(k - 1);
      assert m * Pow2(k) == 2 * h by { MulAssociates(m, 2, Pow2(k - 1)); }
      BitOrDisjoint(m, y / 2, k - 1);
    }
  }

  /** Splitting a shifted word: the bits kept and the bits carried into the next word. */
  lemma ShlSplit(w: Word, k: nat)
    requires k <= 32
    ensures Shl(w, k) == (w % Pow2(32 - k)) * Pow2(k)
    ensures w * Pow2(k) == BASE * Shr(w, 32 - k) + Shl(w, k)
    ensures Shr(w, 32 - k) < Pow2(k)
  {
    Pow2Add(k, 32 - k);
    Pow2Of32();
    SplitProduct(w, Pow2(k), Pow2(32 - k));
  }

  /** The arithmetic behind ShlSplit: a factor split of the word size. */
  lemma SplitProduct(w: Word, p: nat, q: nat)
    requires p > 0 && q > 0 && p * q == BASE
    ensures (w * p) % BASE == (w % q) * p
    ensures w * p == BASE * (w / q) + (w % q) * p
    ensures w / q < p
  {
    var hi, lo := w / q, w % q;
    assert w == q * hi + lo;
    MulDistributes(p, q * hi, lo);
    MulAssociates(p, q, hi);
    assert w * p == hi * BASE + lo * p;
    MulMonotone(lo + 1, q, p);
    MulDistributes(p, lo, 1);
    DivModUnique(w * p, BASE, hi, lo * p);
    if hi >= p {
      MulMonotone(p, hi, q);
    }
  }

  /** The shifted word with a carry or-ed in. */
  lemma ShlOr(w: Word, k: nat, carry: Word)
    requires k <= 32 && carry < Pow2(k)
    ensures Or(Shl(w, k), carry) == Shl(w, k) + carry
  {
    ShlSplit(w, k);
    BitOrDisjoint(w % Pow2(32 - k), carry, k);
  }

  lemma OrOne(w: Word)
    requires w % 2 == 0
    ensures Or(w, 1) == w + 1
  {
    assert Pow2(1) == 2;
    BitOrDisjoint(w / 2, 1, 1);
  }

  /** A right shift by k, seen as keeping w/2^k and handing w mod 2^k down. */
  lemma ShrSplit(w: Word, k: nat)
    requires k <= 32
    ensures w == Shr(w, k) * Pow2(k) + w % Pow2(k)
    ensures Shl(w, 32 - k) == (w % Pow2(k)) * Pow2(32 - k)
    ensures Shr(w, k) < Pow2(32 - k)
  {
    DivModBy(w, Pow2(k));
    ShlSplit(w, 32 - k);
  }

  lemma ShrOr(m: nat, w: Word, k: nat)
    requires k <= 32 && m * Pow2(32 - k) < BASE
    ensures Or(m * Pow2(32 - k), Shr(w, k)) == m * Pow2(32 - k) + Shr(w, k)
  {
    ShrSplit(w, k);
    BitOrDisjoint(m, Shr(w, k), 32 - k);
  }

  /** a + (b + carry), each sum taken in a word. */
  function WAdd(a: Word, b: Word, carry: Word): Word {
    (a + (b + carry) % BASE) % BASE
  }

  function WSub(a: Word, b: Word, borrow: Word): Word {
    (a - (b + borrow) % BASE) % BASE
  }

  /** The carry out of a word, as the source computes it from 31-bit halves. */
  function CarryOut(a: Word, b: Word, carry: Word): Word
    requires carry <= 1
  {
    var low := (a % HALF + b % HALF + carry) / HALF;
    (low + (a / HALF + b / HALF)) / 2
  }

  lemma CarryOutIsCarry(a: Word, b: Word, carry: Word)
    requires carry <= 1
    ensures WAdd(a, b, carry) + BASE * CarryOut(a, b, carry) == a + b + carry
    ensures CarryOut(a, b, carry) <= 1
  {
    hide *;
    SumInWord(a, b, carry);
    CarryOutValue(a, b, carry);
  }

  lemma SumInWord(a: Word, b: Word, carry: Word)
    requires carry <= 1
    ensures WAdd(a, b, carry) == a + b + carry - if a + b + carry >= BASE then BASE else 0
  {
  }

  lemma CarryOutValue(a: Word, b: Word, carry: Word)
    requires carry <= 1
    ensures CarryOut(a, b, carry) == if a + b + carry >= BASE then 1 else 0
  {
    var a1, b1 := a / HALF, b / HALF;
    assert a1 <= 1 && b1 <= 1;
    assert a == a1 * HALF + a % HALF && b == b1 * HALF + b % HALF;
  }

  /** The borrow out of a word, with every intermediate taken modulo the word size. */
  function BorrowOut(a: Word, b: Word, borrow: Word): Word
    requires borrow <= 1
  {
    var low := ((a % HALF - b % HALF - borrow) % BASE) / HALF;
    var sum := (low + (b / HALF - a / HALF)) % BASE;
    ((sum + 1) % BASE) / 2
  }

  lemma BorrowOutIsBorrow(a: Word, b: Word, borrow: Word)
    requires borrow <= 1
    ensures WSub(a, b, borrow) == a - b - borrow + BASE * BorrowOut(a, b, borrow)
    ensures BorrowOut(a, b, borrow) <= 1
  {
    var out := if a < b + borrow then 1 else 0;
    BorrowOutValue(a, b, borrow);
    ModSub(a, b + borrow, BASE);
    DivModUnique(a - b - borrow, BASE, -out, a - b - borrow + BASE * out);
  }

  lemma BorrowOutValue(a: Word, b: Word, borrow: Word)
    requires borrow <= 1
    ensures BorrowOut(a, b, borrow) == if a < b + borrow then 1 else 0
  {
    var d := a % HALF - b % HALF - borrow;
    assert (d % BASE) / HALF == if d < 0 then 1 else 0;
    assert a == HALF * (a / HALF) + a % HALF && b == HALF * (b / HALF) + b % HALF;
    assert a / HALF <= 1 && b / HALF <= 1;
  }
}

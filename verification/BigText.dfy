/** Printing big integers in a radix from 2 to 36, and reading them back. */
module BigText {
  import opened PowerOfTwo
  import opened Words
  import opened BigTypes
  import opened BigMultiply
  import opened BigDivide
  import opened BigSigned

  /** The digit character of d, as toString builds it. */
  function DigitChar(d: nat): char
    requires d < 36
  {
    if d >= 10 then (d - 10 + 'a' as int) as char else (d + '0' as int) as char
  }

  /** The letter test on character codes: bits 6 and 7 are 01 and the low five bits are 1 to 26. */
  predicate IsAlpha(c: char) {
    0x40 <= c as int < 0x80 && (c as int - 1) % 32 <= 25
  }

  /** Sets bit 5 of a letter's code. */
  function ToLower(c: char): int {
    if (c as int / 32) % 2 == 0 then c as int + 32 else c as int
  }

  /** The word fromString makes of an ASCII character. */
  function DigitWord(c: char): Word {
    if IsAlpha(c) then (ToLower(c) - 'a' as int + 10) % BASE else (c as int - '0' as int) % BASE
  }

  /** The digits of v, most significant first. */
  function Text(v: nat, radix: nat): string
    requires 2 <= radix <= 36
  {
    if v < radix then [DigitChar(v)]
    else
      DivBound(v, radix);
      QuotientShrinks(v, radix);
      Text(v / radix, radix) + [DigitChar(v % radix)]
  }

  lemma QuotientShrinks(v: nat, radix: nat)
    requires v > 0 && radix >= 2
    ensures v / radix < v
  {
    DivBound(v, radix);
    DivModBy(v, radix);
    if v / radix == v {
      MulMonotone(2, radix, v);
    }
  }

  /** The number a digit string stands for. */
  ghost function Number(s: string, radix: nat): nat {
    if s == "" then 0 else Number(s[..|s| - 1], radix) * radix + DigitWord(s[|s| - 1])
  }

  /** One past the last minus sign that a signed reading stops at; 0 if there is none. */
  function AfterSign(s: string, sign: bool): (k: nat)
    ensures k <= |s|
    ensures sign && '-' in s ==> k > 0 && s[k - 1] == '-' && '-' !in s[k..]
    ensures !(sign && '-' in s) ==> k == 0
  {
    if s == "" || !sign then 0
    else if s[|s| - 1] == '-' then |s|
    else
      assert forall c :: c in s <==> c in s[..|s| - 1] || c == s[|s| - 1];
      AfterSign(s[..|s| - 1], sign)
  }

  /** What fromString computes, before it is cut to the width. */
  ghost function Reading(s: string, sign: bool, radix: nat): int {
    var k := AfterSign(s, sign);
    if k > 0 then 0 - Number(s[k..], radix) else Number(s, radix)
  }

  function Power(b: nat, e: nat): nat {
    if e == 0 then 1 else Power(b, e - 1) * b
  }

  /** n -> string; a sign is printed for a negative n when asked for. */
  method ToString(n0: array<Word>, sign: bool, radix: nat) returns (s: string)
    requires n0.Length > 0 && 2 <= radix <= 36
    ensures var v := if sign then SVal(n0[..]) else Val(n0[..]);
            s == (if v < 0 then "-" else "") + Text(Abs(v), radix)
  {
    hide Val, SVal, High;
    ghost var v := if sign then SVal(n0[..]) else Val(n0[..]);
    var n, base, r := new Word[n0.Length], new Word[n0.Length], new Word[n0.Length];
    Set(n, n0);
    USetW(base, radix);
    var negative := false;
    if sign {
      negative := Magnitude(n);
    }
    s := "";
    while true
      invariant Val(base[..]) == radix
      invariant Text(Abs(v), radix) == Text(Val(n[..]), radix) + s
      decreases Val(n[..])
    {
      ghost var m := Val(n[..]);
      UDivide(n, base, n, r);
      QuotientIsEuclidean(m, radix, Val(n[..]), Val(r[..]));
      LowWord(r[..], radix);
      s := [DigitChar(r[0])] + s;
      var done := IsZero(n);
      DigitSplit(m, radix);
      if done {
        break;
      }
      QuotientShrinks(m, radix);
    }
    if negative {
      s := "-" + s;
    }
  }

  /** A value below the word size sits in the low word. */
  lemma LowWord(r: seq<Word>, radix: nat)
    requires r != [] && Val(r) < radix <= BASE
    ensures r[0] == Val(r)
  {
    hide Val;
    assert r == [r[0]] + r[1..];
    ValCons(r[0], r[1..]);
  }

  lemma DigitSplit(v: nat, radix: nat)
    requires 2 <= radix <= 36
    ensures v / radix == 0 ==> Text(v, radix) == [DigitChar(v % radix)]
    ensures v / radix > 0 ==> Text(v, radix) == Text(v / radix, radix) + [DigitChar(v % radix)]
  {
    DivModBy(v, radix);
    if v < radix {
      ModSmall(v, radix);
    } else if v / radix == 0 {
      DivModUnique(v, radix, 0, v);
    }
  }

  /** s -> n, modulo n's width. */
  method FromString(s: string, n: array<Word>, sign: bool, radix: nat)
    requires n.Length > 0 && 2 <= radix <= 36
    modifies n
    ensures Val(n[..]) == Reading(s, sign, radix) % Weight(n.Length)
  {
    hide Val, Weight, Number, Power;
    ghost var p := Weight(n.Length);
    var acc, base, temp := new Word[n.Length], new Word[n.Length], new Word[n.Length];
    USetW(acc, 1);
    USetW(base, radix);
    Zero(n);
    StartReading(s, radix, acc[..], n[..]);
    var len := |s|;
    while len > 0
      invariant 0 <= len <= |s| && Val(base[..]) == radix
      invariant sign ==> '-' !in s[len..]
      invariant Val(n[..]) == Number(s[len..], radix) % p
      invariant Val(acc[..]) == Power(radix, |s| - len) % p
    {
      len := len - 1;
      var ch := s[len];
      if !IsAlpha(ch) && sign && ch == '-' {
        Negate(n);
        LastSign(s, len);
        NegatedMod(Number(s[len + 1..], radix), p);
        return;
      }
      assert s[len..] == [ch] + s[len + 1..];
      USetW(temp, DigitWord(ch));
      UMultiplyBy(temp, acc);
      Add(n, temp);
      UMultiplyBy(acc, base);
      NextDigit(s[len + 1..], ch, radix, p);
    }
    assert s[0..] == s;
    NoSign(s, sign);
  }

  lemma StartReading(s: string, radix: nat, acc: seq<Word>, n: seq<Word>)
    requires |acc| == |n| > 0 && Val(acc) == 1 && n == Zeros(|n|)
    ensures Val(n) == Number(s[|s|..], radix) % Weight(|n|)
    ensures Val(acc) == Power(radix, 0) % Weight(|n|)
  {
    hide Val, Weight;
    ValZeros(|n|);
    ValBound(acc);
    ModSmall(1, Weight(|n|));
    ModSmall(0, Weight(|n|));
  }

  lemma {:induction false} LastSign(s: string, k: nat)
    requires k < |s| && s[k] == '-' && '-' !in s[k + 1..]
    ensures AfterSign(s, true) == k + 1
  {
    var m := |s| - 1;
    if k < m {
      InSuffix(s, k + 1, m);
      assert s[..m][k + 1..] == s[k + 1..][..m - k - 1];
      LastSign(s[..m], k);
    }
  }

  lemma InSuffix(s: string, i: nat, k: nat)
    requires i <= k < |s|
    ensures s[k] in s[i..]
  {
    assert s[i..][k - i] == s[k];
  }

  lemma NoSign(s: string, sign: bool)
    requires sign ==> '-' !in s
    ensures AfterSign(s, sign) == 0
  {
  }

  /** A digit in front adds its value times the power of the radix reached so far. */
  lemma NextDigit(t: string, ch: char, radix: nat, p: nat)
    requires p > 0
    ensures (Number(t, radix) % p + (DigitWord(ch) * (Power(radix, |t|) % p)) % p) % p
         == Number([ch] + t, radix) % p
    ensures ((Power(radix, |t|) % p) * radix) % p == Power(radix, |t| + 1) % p
  {
    hide Number, DigitWord;
    var d, w := DigitWord(ch), Power(radix, |t|);
    ModMul(w, d, p);
    assert (d * (w % p)) % p == (d * w) % p;
    ModAdd(Number(t, radix), (d * w) % p, p);
    ModAdd(d * w, Number(t, radix), p);
    NumberCons(t, ch, radix);
    ModMul(w, radix, p);
  }

  lemma {:induction false} NumberCons(t: string, ch: char, radix: nat)
    ensures Number([ch] + t, radix) == DigitWord(ch) * Power(radix, |t|) + Number(t, radix)
  {
    hide DigitWord;
    if t == "" {
      assert [ch] + t == [ch];
      assert [ch][..0] == "";
    } else {
      var m := |t| - 1;
      assert ([ch] + t)[..m + 1] == [ch] + t[..m];
      NumberCons(t[..m], ch, radix);
      MulDistributes(radix, DigitWord(ch) * Power(radix, m), Number(t[..m], radix));
      MulAssociates(DigitWord(ch), Power(radix, m), radix);
    }
  }

  lemma DigitRoundTrip(d: nat)
    requires d < 36
    ensures DigitWord(DigitChar(d)) == d && DigitChar(d) != '-'
  {
  }

  lemma NumberLast(t: string, ch: char, radix: nat)
    ensures Number(t + [ch], radix) == Number(t, radix) * radix + DigitWord(ch) && Number("", radix) == 0
  {
    hide DigitWord;
    assert (t + [ch])[..|t|] == t;
  }

  lemma {:induction false} TextRoundTrip(v: nat, radix: nat)
    requires 2 <= radix <= 36
    ensures Number(Text(v, radix), radix) == v && '-' !in Text(v, radix) && Text(v, radix) != ""
  {
    hide Number, DigitWord, DigitChar;
    DigitRoundTrip(v % radix);
    DivModBy(v, radix);
    if v < radix {
      DigitRoundTrip(v);
      NumberLast("", DigitChar(v), radix);
      assert "" + [DigitChar(v)] == [DigitChar(v)];
    } else {
      QuotientShrinks(v, radix);
      TextRoundTrip(v / radix, radix);
      NumberLast(Text(v / radix, radix), DigitChar(v % radix), radix);
    }
  }

  /** Reading a printed number gives the number back, for either signedness and every radix. */
  lemma PrintedNumberReadsBack(n: seq<Word>, sign: bool, radix: nat)
    requires n != [] && 2 <= radix <= 36
    ensures var v := if sign then SVal(n) else Val(n);
            var s := (if v < 0 then "-" else "") + Text(Abs(v), radix);
            Reading(s, sign, radix) == v && Reading(s, sign, radix) % Weight(|n|) == Val(n)
  {
    hide Val, Weight, SVal, Number;
    var v := if sign then SVal(n) else Val(n);
    var t := Text(Abs(v), radix);
    var s := (if v < 0 then "-" else "") + t;
    TextRoundTrip(Abs(v), radix);
    SValRange(n);
    ValBound(n);
    ModSmall(Val(n), Weight(|n|));
    if v < 0 {
      assert s[1..] == t;
      LastSign(s, 0);
    } else {
      assert s == t;
      NoSign(s, sign);
    }
  }

  /** fromString undoes toString. */
  method RoundTrip(n0: array<Word>, n: array<Word>, sign: bool, radix: nat)
    requires n0.Length == n.Length > 0 && n0 != n && 2 <= radix <= 36
    modifies n
    ensures n[..] == n0[..]
  {
    var s := ToString(n0, sign, radix);
    FromString(s, n, sign, radix);
    PrintedNumberReadsBack(n0[..], sign, radix);
    ValInjective(n[..], n0[..]);
  }

  // ----- the digits on paper

  const FIGURES := "0123456789"
  const LETTERS := "abcdefghijklmnopqrstuvwxyz"
  const CAPITALS := "ABCDEFGHIJKLMNOPQRSTUVWXYZ"

  /** The ten figures, and then the letters in their order. */
  function Digit(d: nat): char
    requires d < 36
  {
    if d < 10 then FIGURES[d] else LETTERS[d - 10]
  }

  /** These are the digits printed, and they are read as what they stand for, letters in either case. */
  lemma DigitsAre(d: nat)
    requires d < 36
    ensures DigitChar(d) == Digit(d) && DigitWord(Digit(d)) == d
    ensures d >= 10 ==> DigitWord(CAPITALS[d - 10]) == d
  {
    hide *;
    if d < 10 {
      FigureAt(d);
      FigureCode(FIGURES[d], d);
    } else {
      LetterAt(d - 10);
      CapitalAt(d - 10);
      LetterCodes(LETTERS[d - 10], CAPITALS[d - 10], d);
    }
    DigitCases(d);
  }

  lemma DigitCases(d: nat)
    requires d < 36
    ensures d < 10 ==> |FIGURES| == 10 && Digit(d) == FIGURES[d]
    ensures d >= 10 ==> |LETTERS| == |CAPITALS| == 26 && Digit(d) == LETTERS[d - 10]
  {
  }

  lemma FigureCode(c: char, d: nat)
    requires d < 10 && c as int == '0' as int + d
    ensures DigitChar(d) == c && DigitWord(c) == d
  {
  }

  lemma LetterCodes(c: char, capital: char, d: nat)
    requires 10 <= d < 36 && c as int == 'a' as int + d - 10 && capital as int == 'A' as int + d - 10
    ensures DigitChar(d) == c && DigitWord(c) == DigitWord(capital) == d
  {
  }

  lemma FigureAt(k: nat)
    requires k < 10
    ensures |FIGURES| == 10 && FIGURES[k] as int == '0' as int + k
  {
  }

  lemma LetterAt(k: nat)
    requires k < 26
    ensures |LETTERS| == 26 && LETTERS[k] as int == 'a' as int + k
  {
  }

  lemma CapitalAt(k: nat)
    requires k < 26
    ensures |CAPITALS| == 26 && CAPITALS[k] as int == 'A' as int + k
  {
  }

  /** The radix itself is written 10. */
  lemma RadixIsTen(radix: nat)
    requires 2 <= radix <= 36
    ensures Number("10", radix) == radix && Text(radix, radix) == "10"
  {
    DigitsAre(0);
    DigitsAre(1);
    hide DigitWord, DigitChar;
    assert "10"[..1] == "1" && "1"[..0] == "";
    assert Number("1", radix) == 1;
    DivModUnique(radix, radix, 1, 0);
    assert Text(1, radix) == "1";
  }

  /** Place i from the right holds the digit of that power of the radix; there is no zero in front. */
  lemma {:induction false} TextAt(v: nat, radix: nat, i: nat)
    requires 2 <= radix <= 36 && i < |Text(v, radix)|
    ensures Power(radix, i) > 0 && 0 <= v / Power(radix, i) % radix < radix
    ensures Text(v, radix)[|Text(v, radix)| - 1 - i] == Digit(v / Power(radix, i) % radix)
    ensures v > 0 ==> Text(v, radix)[0] != '0'
    decreases v
  {
    hide Digit, DigitChar, Power;
    DivModBy(v, radix);
    DigitsAre(v % radix);
    if v < radix {
      ModSmall(v, radix);
      PowerStep(radix, 0);
      hide *;
      assert v / 1 == v;
      NotZeroDigit(v);
    } else {
      QuotientShrinks(v, radix);
      MulMonotone(1, v / radix, radix);
      if i == 0 {
        PowerStep(radix, 0);
        TextAt(v / radix, radix, 0);
        assert v / 1 == v;
      } else {
        TextAt(v / radix, radix, i - 1);
        PowerStep(radix, i - 1);
        DivDiv(v, radix, Power(radix, i - 1));
        MulAssociates(radix, Power(radix, i - 1), 1);
        DivModBy(v / Power(radix, i), radix);
      }
    }
  }

  lemma PowerStep(radix: nat, i: nat)
    ensures Power(radix, 0) == 1 && Power(radix, i + 1) == Power(radix, i) * radix
  {
  }

  lemma NotZeroDigit(d: nat)
    requires d < 36
    ensures Digit(d) == '0' <==> d == 0
  {
    DigitsAre(d);
    DigitsAre(0);
  }
}

/** Binary prefix codes and Kraft's inequality. */
module PrefixCodes {
  import opened PowerOfTwo

  type Word = seq<bool>

  /** Neither x nor any word of the code continues the other. */
  ghost predicate Apart(x: Word, code: seq<Word>) {
    forall i :: 0 <= i < |code| ==> !(x <= code[i]) && !(code[i] <= x)
  }

  /** No word of the code is the beginning of another one. */
  ghost predicate PrefixFree(code: seq<Word>) {
    forall i, j :: 0 <= i < j < |code| ==> !(code[i] <= code[j]) && !(code[j] <= code[i])
  }

  function Lengths(code: seq<Word>): (s: seq<nat>)
    ensures |s| == |code| && forall i :: 0 <= i < |s| ==> s[i] == |code[i]|
  {
    seq(|code|, i requires 0 <= i < |code| => |code[i]|)
  }

  ghost predicate AtMost(s: seq<nat>, m: nat) {
    forall i :: 0 <= i < |s| ==> s[i] <= m
  }

  /** The Kraft sum of code word lengths, scaled by 2^m. */
  function Kraft(s: seq<nat>, m: nat): nat
    requires AtMost(s, m)
  {
    if s == [] then 0 else Pow2(m - s[0]) + Kraft(s[1..], m)
  }

  /** The rests of the words that start with the bit b. */
  function Tails(code: seq<Word>, b: bool): (t: seq<Word>)
    ensures |t| <= |code|
  {
    if code == [] then []
    else if code[0] != [] && code[0][0] == b then [code[0][1..]] + Tails(code[1..], b)
    else Tails(code[1..], b)
  }

  lemma {:induction false} TailsFromCode(code: seq<Word>, b: bool)
    ensures forall w :: w in Tails(code, b) ==> [b] + w in code
  {
    if code != [] {
      TailsFromCode(code[1..], b);
      if code[0] != [] && code[0][0] == b {
        assert [b] + code[0][1..] == code[0];
      }
      assert forall w :: w in code[1..] ==> w in code;
    }
  }

  lemma PrefixFreeRest(code: seq<Word>)
    requires code != [] && PrefixFree(code)
    ensures PrefixFree(code[1..]) && Apart(code[0], code[1..])
  {
  }

  lemma {:induction false} TailsPrefixFree(code: seq<Word>, b: bool)
    requires PrefixFree(code)
    ensures PrefixFree(Tails(code, b))
  {
    if code != [] {
      PrefixFreeRest(code);
      TailsPrefixFree(code[1..], b);
      if code[0] != [] && code[0][0] == b {
        var t := Tails(code[1..], b);
        TailsFromCode(code[1..], b);
        forall i | 0 <= i < |t|
          ensures !(code[0][1..] <= t[i]) && !(t[i] <= code[0][1..])
        {
          assert [b] + t[i] in code[1..];
          assert code[0] == [b] + code[0][1..];
        }
      }
    }
  }

  lemma {:induction false} TailsShorter(code: seq<Word>, b: bool, m: nat)
    requires AtMost(Lengths(code), m)
    ensures m > 0 ==> AtMost(Lengths(Tails(code, b)), m - 1)
  {
    TailsFromCode(code, b);
    if m > 0 {
      var t := Tails(code, b);
      forall i | 0 <= i < |t|
        ensures |t[i]| <= m - 1
      {
        var j :| 0 <= j < |code| && code[j] == [b] + t[i];
        assert Lengths(code)[j] <= m;
      }
    }
  }

  /** The Kraft sum splits by first bit when no word is empty. */
  lemma {:induction false} KraftSplits(code: seq<Word>, m: nat)
    requires m > 0 && AtMost(Lengths(code), m) && [] !in code
    requires AtMost(Lengths(Tails(code, false)), m - 1) && AtMost(Lengths(Tails(code, true)), m - 1)
    ensures Kraft(Lengths(code), m)
         == Kraft(Lengths(Tails(code, false)), m - 1) + Kraft(Lengths(Tails(code, true)), m - 1)
  {
    if code != [] {
      var rest, b := code[1..], code[0][0];
      assert Lengths(code)[1..] == Lengths(rest);
      TailsShorter(rest, false, m);
      TailsShorter(rest, true, m);
      KraftSplits(rest, m);
      assert Lengths(Tails(code, b))[1..] == Lengths(Tails(rest, b));
    }
  }

  lemma EmptyBegins(w: Word)
    ensures [] <= w
  {
  }

  lemma ShortWord(code: seq<Word>)
    requires code != [] && AtMost(Lengths(code), 0)
    ensures [] in code
  {
    assert Lengths(code)[0] <= 0;
    assert code[0] == [];
  }

  /** Kraft's inequality: the words of a prefix-free code cannot be too short all together. */
  lemma {:induction false} KraftInequality(code: seq<Word>, m: nat)
    requires PrefixFree(code) && AtMost(Lengths(code), m)
    ensures Kraft(Lengths(code), m) <= Pow2(m)
    decreases m
  {
    if m == 0 && code != [] {
      ShortWord(code);
    }
    if [] in code {
      var i :| 0 <= i < |code| && code[i] == [];
      if |code| > 1 {
        EmptyBegins(code[if i == 0 then 1 else 0]);
      }
      assert |code| == 1 ==> Lengths(code) == [0];
    } else if m == 0 {
    } else {
      forall b
        ensures AtMost(Lengths(Tails(code, b)), m - 1)
        ensures Kraft(Lengths(Tails(code, b)), m - 1) <= Pow2(m - 1)
      {
        TailsShorter(code, b, m);
        TailsPrefixFree(code, b);
        KraftInequality(Tails(code, b), m - 1);
      }
      KraftSplits(code, m);
    }
  }
}

/** The cipher object: its key schedule, and blocks ciphered in place inside larger buffers. */
module AESCipher {
  import opened Bits
  import opened AESTables
  import opened AES

  // ----- blocks inside buffers

  function BlockAt(d: seq<Byte>, at: nat): Block
    requires at + 16 <= |d|
  {
    d[at..at + 16]
  }

  /** The buffer with another block at the given place. */
  function Patched(d: seq<Byte>, at: nat, b: Block): (r: seq<Byte>)
    requires at + 16 <= |d|
    ensures |r| == |d|
  {
    d[..at] + b + d[at + 16..]
  }

  lemma PatchedTwice(d: seq<Byte>, at: nat, b: Block, c: Block)
    requires at + 16 <= |d|
    ensures BlockAt(Patched(d, at, b), at) == b
    ensures Patched(Patched(d, at, b), at, c) == Patched(d, at, c)
  {
  }

  lemma PatchedIs(d: seq<Byte>, at: nat, b: Block, e: seq<Byte>)
    requires at + 16 <= |d| == |e|
    requires forall i :: 0 <= i < 16 ==> e[at + i] == b[i]
    requires forall i :: 0 <= i < at || at + 16 <= i < |d| ==> e[i] == d[i]
    ensures e == Patched(d, at, b)
  {
    forall i | 0 <= i < |d|
      ensures e[i] == Patched(d, at, b)[i]
    {
      if at <= i < at + 16 {
        assert e[at + (i - at)] == b[i - at];
      }
    }
  }

  /** The buffer with the word at the given place rotated by n bytes. */
  function Rotated(d: seq<Byte>, at: nat, n: nat): (r: seq<Byte>)
    requires at + 4 <= |d| && n <= 4
    ensures |r| == |d|
  {
    d[..at] + Turned(d[at..at + 4], n) + d[at + 4..]
  }

  lemma RotatedIs(d: seq<Byte>, at: nat, n: nat, e: seq<Byte>)
    requires at + 4 <= |d| == |e| && n <= 4
    requires forall i :: 0 <= i < |d| ==>
             e[i] == d[if at <= i < at + 4 then (if i + n < at + 4 then i + n else i + n - 4) else i]
    ensures e == Rotated(d, at, n)
  {
    var w := d[at..at + 4];
    forall i | 0 <= i < |d|
      ensures e[i] == Rotated(d, at, n)[i]
    {
      if at <= i < at + 4 {
        assert Rotated(d, at, n)[i] == Turned(w, n)[i - at];
        assert Turned(w, n)[i - at] == w[if i - at + n < 4 then i - at + n else i - at + n - 4];
      }
    }
  }

  lemma RotatedInside(pre: seq<Byte>, w: seq<Byte>, post: seq<Byte>, n: nat)
    requires |w| == 4 && n <= 4
    ensures Rotated(pre + w + post, |pre|, n) == pre + Turned(w, n) + post
  {
    hide Turned;
    var d := pre + w + post;
    assert d[..|pre|] == pre && d[|pre|..|pre| + 4] == w && d[|pre| + 4..] == post;
  }

  /** Rotating three words one after the other. */
  lemma ThreeRotated(pre: seq<Byte>, u: seq<Byte>, v: seq<Byte>, w: seq<Byte>, post: seq<Byte>, a: nat, b: nat, c: nat)
    requires |u| == |v| == |w| == 4 && a <= 4 && b <= 4 && c <= 4
    ensures var n := |pre|;
            Rotated(Rotated(Rotated(pre + u + v + w + post, n, a), n + 4, b), n + 8, c)
            == pre + Turned(u, a) + Turned(v, b) + Turned(w, c) + post
  {
    hide Turned, Rotated;
    assert pre + u + v + w + post == pre + u + (v + w + post);
    RotatedInside(pre, u, v + w + post, a);
    var p := pre + Turned(u, a);
    assert p + (v + w + post) == p + v + (w + post);
    RotatedInside(p, v, w + post, b);
    var q := p + Turned(v, b);
    assert q + (w + post) == q + w + post;
    RotatedInside(q, w, post, c);
  }

  lemma RowOf(d: seq<Byte>, at: nat, i: nat)
    requires at + 16 <= |d| && i <= 12
    ensures BlockAt(d, at)[i..i + 4] == d[at + i..at + i + 4]
  {
    var u, v := BlockAt(d, at)[i..i + 4], d[at + i..at + i + 4];
    forall j | 0 <= j < 4
      ensures u[j] == v[j]
    {
      assert BlockAt(d, at)[i + j] == d[at + (i + j)];
    }
  }

  lemma RowsShifted(d: seq<Byte>, at: nat)
    requires at + 16 <= |d|
    ensures Rotated(Rotated(Rotated(d, at + 4, 1), at + 8, 2), at + 12, 3) == Patched(d, at, Shifted(BlockAt(d, at)))
    ensures Rotated(Rotated(Rotated(d, at + 4, 3), at + 8, 2), at + 12, 1) == Patched(d, at, Unshifted(BlockAt(d, at)))
  {
    hide Turned, Rotated;
    var m, post := BlockAt(d, at), d[at + 16..];
    var pre := d[..at + 4];
    RowOf(d, at, 0);
    RowOf(d, at, 4);
    RowOf(d, at, 8);
    RowOf(d, at, 12);
    assert m[..4] == m[0..4] && m[12..] == m[12..16];
    assert d == pre + m[4..8] + m[8..12] + m[12..] + post;
    assert pre == d[..at] + m[..4];
    ThreeRotated(pre, m[4..8], m[8..12], m[12..], post, 1, 2, 3);
    ThreeRotated(pre, m[4..8], m[8..12], m[12..], post, 3, 2, 1);
  }

  // ----- the key schedule

  function WordAt(schedule: seq<Byte>, c: nat): (w: seq<Byte>)
    requires 4 * c + 4 <= |schedule|
    ensures |w| == 4
  {
    schedule[4 * c..4 * c + 4]
  }

  function XorWord(a: seq<Byte>, b: seq<Byte>): (w: seq<Byte>)
    requires |a| == |b| == 4
    ensures |w| == 4
  {
    [Plus(a[0], b[0]), Plus(a[1], b[1]), Plus(a[2], b[2]), Plus(a[3], b[3])]
  }

  /** A word with its lowest byte first, rotated by eight bits and substituted. */
  function RolSubByte(w: seq<Byte>): (r: seq<Byte>)
    requires |w| == 4
    ensures |r| == 4
  {
    [S(w[3]), S(w[0]), S(w[1]), S(w[2])]
  }

  const RCON: seq<Byte> := [0x01, 0x02, 0x04, 0x08, 0x10, 0x20, 0x40, 0x80, 0x1b, 0x36, 0x6c]

  /** Each round constant is the one before times x; the first is 1, and not used by the schedule. */
  lemma RoundConstants(i: nat)
    requires i < 10
    ensures RCON[0] == 1 && RCON[i + 1] == Mul(2, RCON[i])
  {
    RconDoubles(i);
    SmallProduct(2, RCON[i]);
    hide *;
    PicksOfConstants(RCON[i], Double(RCON[i]), Double(Double(RCON[i])), Double(Double(Double(RCON[i]))));
    QuadOfSecond(Double(RCON[i]));
  }

  lemma RconDoubles(i: nat)
    requires i < 10
    ensures |RCON| == 11 && RCON[0] == 1 && RCON[i + 1] == Double(RCON[i])
  {
  }

  lemma QuadOfSecond(a: Byte)
    ensures Quad(0, a, 0, 0) == a
  {
    QuadCancels(a);
  }

  function RconWord(c: nat): (w: seq<Byte>)
    requires c < 44
    ensures |w| == 4
  {
    [RCON[c / 4], 0, 0, 0]
  }

  /** Word c from the words four before and one before. */
  function NextFrom(a: seq<Byte>, previous: seq<Byte>, c: nat): (w: seq<Byte>)
    requires |a| == |previous| == 4 && c < 44
    ensures |w| == 4
  {
    if c % 4 == 0 then XorWord(XorWord(a, RolSubByte(previous)), RconWord(c)) else XorWord(a, previous)
  }

  function NextWord(schedule: seq<Byte>, c: nat): (w: seq<Byte>)
    requires 4 <= c < 44 && 4 * c <= |schedule|
    ensures |w| == 4
  {
    NextFrom(WordAt(schedule, c - 4), WordAt(schedule, c - 1), c)
  }

  /** The first n words follow from the first four. */
  ghost predicate Scheduled(schedule: seq<Byte>, n: nat) {
    && |schedule| == 176 && n <= 44
    && forall c :: 4 <= c < n ==> WordAt(schedule, c) == NextWord(schedule, c)
  }

  /** Byte by byte, every word is the sum of the one four before and the one before, each fourth one substituted. */
  lemma ScheduleBytes(s: seq<Byte>, c: nat, j: nat)
    requires Scheduled(s, 44) && 4 <= c < 44 && j < 4
    ensures var a, w := s[4 * (c - 4)..4 * (c - 4) + 4], s[4 * (c - 1)..4 * (c - 1) + 4];
            s[4 * c..4 * c + 4][j]
            == Plus(a[j], if c % 4 != 0 then w[j] else Plus(S(w[(j + 3) % 4]), if j == 0 then RCON[c / 4] else 0))
  {
    hide Plus, S, RCON, NextFrom;
    ScheduledWord(s, c);
    NextByte(WordAt(s, c - 4), WordAt(s, c - 1), c, j);
    hide Scheduled, NextWord;
  }

  lemma ScheduledWord(s: seq<Byte>, c: nat)
    requires Scheduled(s, 44) && 4 <= c < 44
    ensures |s| == 176 && WordAt(s, c) == NextFrom(WordAt(s, c - 4), WordAt(s, c - 1), c)
  {
    hide WordAt, NextFrom;
    assert WordAt(s, c) == NextWord(s, c);
  }

  lemma NextByte(a: seq<Byte>, w: seq<Byte>, c: nat, j: nat)
    requires |a| == |w| == 4 && c < 44 && j < 4
    ensures |RCON| == 11
    ensures NextFrom(a, w, c)[j]
         == Plus(a[j], if c % 4 != 0 then w[j] else Plus(S(w[(j + 3) % 4]), if j == 0 then RCON[c / 4] else 0))
  {
    RconByte(c, j);
    hide S, RCON, Plus, XorWord, RolSubByte, RconWord;
    if c % 4 == 0 {
      RotatedByte(w, j);
      XorWordAt(XorWord(a, RolSubByte(w)), RconWord(c), j);
      XorWordAt(a, RolSubByte(w), j);
      PlusAssociates(a[j], RolSubByte(w)[j], RconWord(c)[j]);
    } else {
      XorWordAt(a, w, j);
    }
  }

  lemma RconByte(c: nat, j: nat)
    requires c < 44 && j < 4
    ensures |RCON| == 11 && RconWord(c)[j] == if j == 0 then RCON[c / 4] else 0
  {
    assert |RCON| == 11;
    hide RCON;
  }

  lemma RotatedByte(w: seq<Byte>, j: nat)
    requires |w| == 4 && j < 4
    ensures RolSubByte(w)[j] == S(w[(j + 3) % 4])
  {
    hide S;
  }

  lemma XorWordAt(a: seq<Byte>, b: seq<Byte>, j: nat)
    requires |a| == |b| == 4 && j < 4
    ensures XorWord(a, b)[j] == Plus(a[j], b[j])
  {
    hide Plus;
  }

  lemma PlusBack(a: Byte, b: Byte, c: Byte)
    requires Plus(a, c) == Plus(b, c)
    ensures a == b
  {
    PlusAssociates(a, c, c);
    PlusAssociates(b, c, c);
    PlusZero(c);
    PlusZero(a);
    PlusZero(b);
    hide Plus;
  }

  lemma XorWordBack(a: seq<Byte>, b: seq<Byte>, c: seq<Byte>)
    requires |a| == |b| == |c| == 4 && XorWord(a, c) == XorWord(b, c)
    ensures a == b
  {
    hide Plus;
    forall i | 0 <= i < 4
      ensures a[i] == b[i]
    {
      assert XorWord(a, c)[i] == Plus(a[i], c[i]) && XorWord(b, c)[i] == Plus(b[i], c[i]);
      PlusBack(a[i], b[i], c[i]);
    }
  }

  lemma NextFromBack(a: seq<Byte>, b: seq<Byte>, previous: seq<Byte>, c: nat)
    requires |a| == |b| == |previous| == 4 && c < 44 && NextFrom(a, previous, c) == NextFrom(b, previous, c)
    ensures a == b
  {
    hide XorWord, RolSubByte, RconWord;
    if c % 4 == 0 {
      var r := RolSubByte(previous);
      XorWordBack(XorWord(a, r), XorWord(b, r), RconWord(c));
      XorWordBack(a, b, r);
    } else {
      XorWordBack(a, b, previous);
    }
  }

  /** Schedules that agree on four words in a row agree on all words before. */
  lemma {:induction false} AgreeBefore(s: seq<Byte>, t: seq<Byte>, n: nat)
    requires Scheduled(s, 44) && Scheduled(t, 44) && n <= 40
    requires forall c :: n <= c < n + 4 ==> WordAt(s, c) == WordAt(t, c)
    ensures forall c :: 0 <= c < n + 4 ==> WordAt(s, c) == WordAt(t, c)
  {
    hide WordAt, NextFrom;
    if n > 0 {
      var c := n + 3;
      assert WordAt(s, c) == NextWord(s, c) && WordAt(t, c) == NextWord(t, c);
      assert WordAt(s, c - 1) == WordAt(t, c - 1);
      NextFromBack(WordAt(s, c - 4), WordAt(t, c - 4), WordAt(s, c - 1), c);
      AgreeBefore(s, t, n - 1);
    }
  }

  /** The key can be told from the last round key: the expansion forgets nothing. */
  lemma KeyFromLastRound(s: seq<Byte>, t: seq<Byte>)
    requires Scheduled(s, 44) && Scheduled(t, 44)
    requires forall c :: 40 <= c < 44 ==> WordAt(s, c) == WordAt(t, c)
    ensures s == t
  {
    AgreeBefore(s, t, 40);
    forall i | 0 <= i < 176
      ensures s[i] == t[i]
    {
      assert WordAt(s, i / 4)[i % 4] == WordAt(t, i / 4)[i % 4];
    }
  }

  lemma WordOfPrefix(s: seq<Byte>, t: seq<Byte>, n: nat, j: nat)
    requires j < n && 4 * n <= |s| && 4 * n <= |t| && s[..4 * n] == t[..4 * n]
    ensures WordAt(s, j) == WordAt(t, j)
  {
    assert WordAt(s, j) == s[..4 * n][4 * j..4 * j + 4];
    assert WordAt(t, j) == t[..4 * n][4 * j..4 * j + 4];
  }

  lemma NextWords(s: seq<Byte>, c: nat)
    requires 4 <= c < 44 && 4 * c <= |s|
    ensures c % 4 == 0 ==>
              NextWord(s, c) == XorWord(XorWord(WordAt(s, c - 4), RolSubByte(WordAt(s, c - 1))), RconWord(c))
    ensures c % 4 != 0 ==> NextWord(s, c) == XorWord(WordAt(s, c - 4), WordAt(s, c - 1))
  {
  }

  lemma StartSchedule(s: seq<Byte>)
    requires |s| == 176
    ensures Scheduled(s, 4)
  {
  }

  lemma WordIs(t: seq<Byte>, c: nat, w: seq<Byte>)
    requires |w| == 4 && 4 * c + 4 <= |t| && forall i :: 0 <= i < 4 ==> t[4 * c + i] == w[i]
    ensures WordAt(t, c) == w
  {
    forall i | 0 <= i < 4
      ensures WordAt(t, c)[i] == w[i]
    {
      assert WordAt(t, c)[i] == t[4 * c + i];
    }
  }

  /** Storing the next word. */
  lemma ScheduledMore(s: seq<Byte>, t: seq<Byte>, c: nat)
    requires Scheduled(s, c) && 4 <= c < 44 && |t| == 176
    requires t[..4 * c] == s[..4 * c] && WordAt(t, c) == NextWord(s, c)
    ensures Scheduled(t, c + 1)
  {
    hide NextFrom, WordAt;
    forall j | 0 <= j < c
      ensures WordAt(t, j) == WordAt(s, j)
    {
      WordOfPrefix(s, t, c, j);
    }
    forall j | 4 <= j < c + 1
      ensures WordAt(t, j) == NextWord(t, j)
    {
      if j < c {
        assert WordAt(s, j) == NextWord(s, j);
      }
    }
  }

  class AES128 {
    const keySchedule: array<Byte>

    predicate Valid() {
      keySchedule.Length == 176
    }

    constructor ()
      ensures Valid() && fresh(keySchedule)
    {
      keySchedule := new Byte[176];
    }

    /** Expands a key into eleven round keys. */
    method SetKey(inKey: seq<Byte>)
      requires Valid() && |inKey| == 16
      modifies keySchedule
      ensures keySchedule[..16] == inKey && Scheduled(keySchedule[..], 44)
    {
      hide Scheduled;
      forall i | 0 <= i < 16 {
        keySchedule[i] := inKey[i];
      }
      StartSchedule(keySchedule[..]);
      var c := 4;
      while c < 44
        invariant 4 <= c <= 44 && c % 4 == 0
        invariant keySchedule[..16] == inKey && Scheduled(keySchedule[..], c)
      {
        ExpandFour(c);
        c := c + 4;
      }
    }

    /** The next four words. */
    method ExpandFour(c: nat)
      requires Valid() && 4 <= c <= 40 && c % 4 == 0 && Scheduled(keySchedule[..], c)
      modifies keySchedule
      ensures keySchedule[..16] == old(keySchedule[..16]) && Scheduled(keySchedule[..], c + 4)
    {
      hide XorWord, RolSubByte, RconWord, Scheduled, WordAt, NextWord, NextFrom;
      assert (c + 1) % 4 == 1 && (c + 2) % 4 == 2 && (c + 3) % 4 == 3;
      StoreWord(c, XorWord(XorWord(Word(c - 4), RolSubByte(Word(c - 1))), RconWord(c)));
      StoreWord(c + 1, XorWord(Word(c - 3), Word(c)));
      StoreWord(c + 2, XorWord(Word(c - 2), Word(c + 1)));
      StoreWord(c + 3, XorWord(Word(c - 1), Word(c + 2)));
    }

    function Word(c: nat): (w: seq<Byte>)
      requires Valid() && c < 44
      reads keySchedule
      ensures w == WordAt(keySchedule[..], c)
    {
      keySchedule[4 * c..4 * c + 4]
    }

    method StoreWord(c: nat, w: seq<Byte>)
      requires Valid() && 4 <= c < 44 && |w| == 4
      requires Scheduled(keySchedule[..], c)
      requires w == if c % 4 == 0 then XorWord(XorWord(Word(c - 4), RolSubByte(Word(c - 1))), RconWord(c))
                    else XorWord(Word(c - 4), Word(c - 1))
      modifies keySchedule
      ensures keySchedule[..16] == old(keySchedule[..16]) && Scheduled(keySchedule[..], c + 1)
    {
      hide Scheduled, NextWord, WordAt, XorWord, RolSubByte, RconWord;
      ghost var s := keySchedule[..];
      NextWords(s, c);
      forall i | 0 <= i < 4 {
        keySchedule[4 * c + i] := w[i];
      }
      ghost var t := keySchedule[..];
      assert t[..4 * c] == s[..4 * c];
      WordIs(t, c, w);
      assert keySchedule[..16] == t[..4 * c][..16] && old(keySchedule[..16]) == s[..4 * c][..16];
      ScheduledMore(s, t, c);
    }

    // ----- the transformations in place

    method AddRoundKey(m: array<Byte>, at: nat, r: nat)
      requires Valid() && m != keySchedule && at + 16 <= m.Length && r < 11
      modifies m
      ensures m[..] == Patched(old(m[..]), at, AddedKey(BlockAt(old(m[..]), at), KeyAt(keySchedule[..], r)))
    {
      ghost var d, k := m[..], KeyAt(keySchedule[..], r);
      assert forall i :: 0 <= i < 16 ==> k[i] == keySchedule[16 * r + i];
      forall i | 0 <= i < 16 {
        m[at + i] := m[at + i] ^ keySchedule[16 * r + i];
      }
      PatchedIs(d, at, AddedKey(BlockAt(d, at), k), m[..]);
    }

    method Substitution(m: array<Byte>, at: nat)
      requires at + 16 <= m.Length
      modifies m
      ensures m[..] == Patched(old(m[..]), at, Substituted(BlockAt(old(m[..]), at)))
    {
      hide S;
      ghost var d := m[..];
      forall i | 0 <= i < 16 {
        m[at + i] := S(m[at + i]);
      }
      PatchedIs(d, at, Substituted(BlockAt(d, at)), m[..]);
    }

    method ISubstitution(m: array<Byte>, at: nat)
      requires at + 16 <= m.Length
      modifies m
      ensures m[..] == Patched(old(m[..]), at, Unsubstituted(BlockAt(old(m[..]), at)))
    {
      hide Si;
      ghost var d := m[..];
      forall i | 0 <= i < 16 {
        m[at + i] := Si(m[at + i]);
      }
      PatchedIs(d, at, Unsubstituted(BlockAt(d, at)), m[..]);
    }

    /** Rotates a word of four bytes, the lowest first, by n bytes to the right. */
    method Ror32(m: array<Byte>, at: nat, n: nat)
      requires at + 4 <= m.Length && n < 4
      modifies m
      ensures m[..] == Rotated(old(m[..]), at, n)
    {
      ghost var d := m[..];
      forall i | 0 <= i < 4 {
        m[at + i] := if i + n < 4 then m[at + i + n] else m[at + i + n - 4];
      }
      RotatedIs(d, at, n, m[..]);
    }

    /** Rotates the words of rows 1 to 3. */
    method ShiftRows(m: array<Byte>, at: nat)
      requires at + 16 <= m.Length
      modifies m
      ensures m[..] == Patched(old(m[..]), at, Shifted(BlockAt(old(m[..]), at)))
    {
      hide *;
      ghost var d := m[..];
      Ror32(m, at + 4, 1);
      Ror32(m, at + 8, 2);
      Ror32(m, at + 12, 3);
      RowsShifted(d, at);
    }

    method IShiftRows(m: array<Byte>, at: nat)
      requires at + 16 <= m.Length
      modifies m
      ensures m[..] == Patched(old(m[..]), at, Unshifted(BlockAt(old(m[..]), at)))
    {
      hide *;
      ghost var d := m[..];
      Ror32(m, at + 4, 3);
      Ror32(m, at + 8, 2);
      Ror32(m, at + 12, 1);
      RowsShifted(d, at);
    }

    /** Mixes column by column into a second buffer. */
    method MixColumns(m: array<Byte>, at: nat)
      requires at + 16 <= m.Length
      modifies m
      ensures m[..] == Patched(old(m[..]), at, MixedColumns(BlockAt(old(m[..]), at)))
    {
      hide Mixed, MixedColumns, ColumnsMixed;
      NoColumns();
      ghost var d := m[..];
      ghost var k := BlockAt(d, at);
      assert forall i :: 0 <= i < 16 ==> k[i] == m[at + i];
      var b := new Byte[16];
      for c := 0 to 4
        invariant m[..] == d
        invariant ColumnsMixed(k, b[..], c)
      {
        ghost var before := b[..];
        b[0 + c] := Mixed(m[at + 0 + c], m[at + 4 + c], m[at + 8 + c], m[at + 12 + c]);
        b[4 + c] := Mixed(m[at + 4 + c], m[at + 8 + c], m[at + 12 + c], m[at + 0 + c]);
        b[8 + c] := Mixed(m[at + 8 + c], m[at + 12 + c], m[at + 0 + c], m[at + 4 + c]);
        b[12 + c] := Mixed(m[at + 12 + c], m[at + 0 + c], m[at + 4 + c], m[at + 8 + c]);
        NextColumnMixed(k, before, b[..], c);
      }
      MixedAll(k, b[..]);
      forall i | 0 <= i < 16 {
        m[at + i] := b[i];
      }
      PatchedIs(d, at, b[..], m[..]);
    }

    method IMixColumns(m: array<Byte>, at: nat)
      requires at + 16 <= m.Length
      modifies m
      ensures m[..] == Patched(old(m[..]), at, UnmixedColumns(BlockAt(old(m[..]), at)))
    {
      hide Unmixed, UnmixedColumns, ColumnsUnmixed;
      NoColumns();
      ghost var d := m[..];
      ghost var k := BlockAt(d, at);
      assert forall i :: 0 <= i < 16 ==> k[i] == m[at + i];
      var b := new Byte[16];
      for c := 0 to 4
        invariant m[..] == d
        invariant ColumnsUnmixed(k, b[..], c)
      {
        ghost var before := b[..];
        b[0 + c] := Unmixed(m[at + 0 + c], m[at + 4 + c], m[at + 8 + c], m[at + 12 + c]);
        b[4 + c] := Unmixed(m[at + 4 + c], m[at + 8 + c], m[at + 12 + c], m[at + 0 + c]);
        b[8 + c] := Unmixed(m[at + 8 + c], m[at + 12 + c], m[at + 0 + c], m[at + 4 + c]);
        b[12 + c] := Unmixed(m[at + 12 + c], m[at + 0 + c], m[at + 4 + c], m[at + 8 + c]);
        NextColumnUnmixed(k, before, b[..], c);
      }
      UnmixedAll(k, b[..]);
      forall i | 0 <= i < 16 {
        m[at + i] := b[i];
      }
      PatchedIs(d, at, b[..], m[..]);
    }

    // ----- the cipher in place

    method Encrypt16(buffer: array<Byte>, at: nat)
      requires Valid() && buffer != keySchedule && at + 16 <= buffer.Length
      modifies buffer
      ensures buffer[..] == Patched(old(buffer[..]), at, Encrypted(BlockAt(old(buffer[..]), at), keySchedule[..]))
    {
      ghost var d, k := buffer[..], keySchedule[..];
      assert |k| == 176;
      hide *;
      ghost var b := BlockAt(d, at);
      AddRoundKey(buffer, at, 0);
      NoRounds(b, k);
      var r := 1;
      while r < 10
        invariant 1 <= r <= 10 && keySchedule[..] == k && |k| == 176
        invariant buffer[..] == Patched(d, at, Rounds(b, k, r - 1))
      {
        ghost var x := Rounds(b, k, r - 1);
        Substitution(buffer, at);
        PatchedTwice(d, at, x, Substituted(x));
        ShiftRows(buffer, at);
        PatchedTwice(d, at, Substituted(x), Shifted(Substituted(x)));
        MixColumns(buffer, at);
        PatchedTwice(d, at, Shifted(Substituted(x)), MixedColumns(Shifted(Substituted(x))));
        AddRoundKey(buffer, at, r);
        PatchedTwice(d, at, MixedColumns(Shifted(Substituted(x))), Round(x, k, r));
        OneRound(b, k, r);
        r := r + 1;
      }
      ghost var x := Rounds(b, k, 9);
      Substitution(buffer, at);
      PatchedTwice(d, at, x, Substituted(x));
      ShiftRows(buffer, at);
      PatchedTwice(d, at, Substituted(x), Shifted(Substituted(x)));
      AddRoundKey(buffer, at, 10);
      PatchedTwice(d, at, Shifted(Substituted(x)), Encrypted(b, k));
      LastRound(b, k);
    }

    /** The loop body of decrypt16: one round taken back. */
    method DecryptRound(buffer: array<Byte>, at: nat, r: nat, ghost d: seq<Byte>, ghost x: Block)
      requires Valid() && buffer != keySchedule && at + 16 <= buffer.Length == |d| && 1 <= r < 10
      requires buffer[..] == Patched(d, at, x)
      modifies buffer
      ensures buffer[..] == Patched(d, at, RoundBack(x, keySchedule[..], r))
    {
      ghost var k := keySchedule[..];
      assert |k| == 176;
      hide *;
      ghost var y := AddedKey(x, KeyAt(k, r));
      ghost var z := UnmixedColumns(y);
      PatchedTwice(d, at, x, y);
      AddRoundKey(buffer, at, r);
      PatchedTwice(d, at, y, z);
      IMixColumns(buffer, at);
      PatchedTwice(d, at, z, Unsubstituted(z));
      ISubstitution(buffer, at);
      PatchedTwice(d, at, Unsubstituted(z), Unshifted(Unsubstituted(z)));
      IShiftRows(buffer, at);
      OneRoundBack(x, k, r);
    }

    method Decrypt16(buffer: array<Byte>, at: nat)
      requires Valid() && buffer != keySchedule && at + 16 <= buffer.Length
      modifies buffer
      ensures buffer[..] == Patched(old(buffer[..]), at, Decrypted(BlockAt(old(buffer[..]), at), keySchedule[..]))
    {
      ghost var d, k := buffer[..], keySchedule[..];
      assert |k| == 176;
      hide *;
      ghost var b := BlockAt(d, at);
      ghost var x := AddedKey(b, KeyAt(k, 10));
      AddRoundKey(buffer, at, 10);
      PatchedTwice(d, at, x, Unsubstituted(x));
      ISubstitution(buffer, at);
      PatchedTwice(d, at, Unsubstituted(x), Unshifted(Unsubstituted(x)));
      IShiftRows(buffer, at);
      x := Unshifted(Unsubstituted(x));
      ghost var goal := RoundsBack(x, k, 9);
      var r := 9;
      while r > 0
        invariant 0 <= r <= 9 && keySchedule[..] == k && |k| == 176
        invariant buffer[..] == Patched(d, at, x) && RoundsBack(x, k, r) == goal
      {
        DecryptRound(buffer, at, r, d, x);
        OneRoundBack(x, k, r);
        x := RoundBack(x, k, r);
        r := r - 1;
      }
      NoRoundsBack(x, k);
      PatchedTwice(d, at, x, AddedKey(x, KeyAt(k, 0)));
      AddRoundKey(buffer, at, 0);
      AllRoundsBack(b, k);
    }
  }

  lemma NoColumns()
    ensures forall k, b :: |b| == 16 ==> ColumnsMixed(k, b, 0) && ColumnsUnmixed(k, b, 0)
  {
  }

  /** The first c columns of b are those of k, mixed. */
  ghost predicate ColumnsMixed(k: Block, b: seq<Byte>, c: nat) {
    && |b| == 16 && c <= 4
    && forall j :: 0 <= j < c ==> ColumnMixed(k, b, j)
  }

  ghost predicate ColumnMixed(k: Block, b: seq<Byte>, j: nat)
    requires |b| == 16 && j < 4
  {
    && b[j] == MixedByte(k, 0, j) && b[4 + j] == MixedByte(k, 1, j)
    && b[8 + j] == MixedByte(k, 2, j) && b[12 + j] == MixedByte(k, 3, j)
  }

  ghost predicate SameColumn(b: seq<Byte>, e: seq<Byte>, j: nat)
    requires |b| == |e| == 16 && j < 4
  {
    e[j] == b[j] && e[4 + j] == b[4 + j] && e[8 + j] == b[8 + j] && e[12 + j] == b[12 + j]
  }

  lemma FourBytesMixed(k: Block, c: nat)
    requires c < 4
    ensures MixedByte(k, 0, c) == Mixed(k[c], k[4 + c], k[8 + c], k[12 + c])
    ensures MixedByte(k, 1, c) == Mixed(k[4 + c], k[8 + c], k[12 + c], k[c])
    ensures MixedByte(k, 2, c) == Mixed(k[8 + c], k[12 + c], k[c], k[4 + c])
    ensures MixedByte(k, 3, c) == Mixed(k[12 + c], k[c], k[4 + c], k[8 + c])
  {
    hide Mixed;
  }

  lemma NextColumnMixed(k: Block, b: seq<Byte>, e: seq<Byte>, c: nat)
    requires ColumnsMixed(k, b, c) && c < 4 && |e| == 16
    requires forall j :: 0 <= j < c ==> SameColumn(b, e, j)
    requires e[c] == Mixed(k[c], k[4 + c], k[8 + c], k[12 + c])
    requires e[4 + c] == Mixed(k[4 + c], k[8 + c], k[12 + c], k[c])
    requires e[8 + c] == Mixed(k[8 + c], k[12 + c], k[c], k[4 + c])
    requires e[12 + c] == Mixed(k[12 + c], k[c], k[4 + c], k[8 + c])
    ensures ColumnsMixed(k, e, c + 1)
  {
    FourBytesMixed(k, c);
    hide Mixed, MixedByte, ColumnMixed, SameColumn;
    ColumnMixedNow(k, e, c);
    forall j | 0 <= j < c + 1
      ensures ColumnMixed(k, e, j)
    {
      if j < c {
        assert SameColumn(b, e, j);
        ColumnMixedStill(k, b, e, j);
      }
    }
  }

  lemma ColumnMixedNow(k: Block, e: seq<Byte>, c: nat)
    requires |e| == 16 && c < 4
    requires e[c] == MixedByte(k, 0, c) && e[4 + c] == MixedByte(k, 1, c)
    requires e[8 + c] == MixedByte(k, 2, c) && e[12 + c] == MixedByte(k, 3, c)
    ensures ColumnMixed(k, e, c)
  {
    hide MixedByte;
  }

  lemma ColumnMixedStill(k: Block, b: seq<Byte>, e: seq<Byte>, j: nat)
    requires |b| == |e| == 16 && j < 4 && ColumnMixed(k, b, j) && SameColumn(b, e, j)
    ensures ColumnMixed(k, e, j)
  {
    hide MixedByte;
  }

  lemma MixedAll(k: Block, b: seq<Byte>)
    requires ColumnsMixed(k, b, 4)
    ensures b == MixedColumns(k)
  {
    hide MixedByte;
    forall i | 0 <= i < 16
      ensures b[i] == MixedColumns(k)[i]
    {
      assert ColumnMixed(k, b, i % 4);
      assert i == 4 * (i / 4) + i % 4;
    }
  }

  /** The first c columns of b are those of k, unmixed. */
  ghost predicate ColumnsUnmixed(k: Block, b: seq<Byte>, c: nat) {
    && |b| == 16 && c <= 4
    && forall j :: 0 <= j < c ==> ColumnUnmixed(k, b, j)
  }

  ghost predicate ColumnUnmixed(k: Block, b: seq<Byte>, j: nat)
    requires |b| == 16 && j < 4
  {
    && b[j] == UnmixedByte(k, 0, j) && b[4 + j] == UnmixedByte(k, 1, j)
    && b[8 + j] == UnmixedByte(k, 2, j) && b[12 + j] == UnmixedByte(k, 3, j)
  }

  lemma FourBytesUnmixed(k: Block, c: nat)
    requires c < 4
    ensures UnmixedByte(k, 0, c) == Unmixed(k[c], k[4 + c], k[8 + c], k[12 + c])
    ensures UnmixedByte(k, 1, c) == Unmixed(k[4 + c], k[8 + c], k[12 + c], k[c])
    ensures UnmixedByte(k, 2, c) == Unmixed(k[8 + c], k[12 + c], k[c], k[4 + c])
    ensures UnmixedByte(k, 3, c) == Unmixed(k[12 + c], k[c], k[4 + c], k[8 + c])
  {
    hide Unmixed;
  }

  lemma NextColumnUnmixed(k: Block, b: seq<Byte>, e: seq<Byte>, c: nat)
    requires ColumnsUnmixed(k, b, c) && c < 4 && |e| == 16
    requires forall j :: 0 <= j < c ==> SameColumn(b, e, j)
    requires e[c] == Unmixed(k[c], k[4 + c], k[8 + c], k[12 + c])
    requires e[4 + c] == Unmixed(k[4 + c], k[8 + c], k[12 + c], k[c])
    requires e[8 + c] == Unmixed(k[8 + c], k[12 + c], k[c], k[4 + c])
    requires e[12 + c] == Unmixed(k[12 + c], k[c], k[4 + c], k[8 + c])
    ensures ColumnsUnmixed(k, e, c + 1)
  {
    FourBytesUnmixed(k, c);
    hide Unmixed, UnmixedByte, ColumnUnmixed, SameColumn;
    ColumnUnmixedNow(k, e, c);
    forall j | 0 <= j < c + 1
      ensures ColumnUnmixed(k, e, j)
    {
      if j < c {
        assert SameColumn(b, e, j);
        ColumnUnmixedStill(k, b, e, j);
      }
    }
  }

  lemma ColumnUnmixedNow(k: Block, e: seq<Byte>, c: nat)
    requires |e| == 16 && c < 4
    requires e[c] == UnmixedByte(k, 0, c) && e[4 + c] == UnmixedByte(k, 1, c)
    requires e[8 + c] == UnmixedByte(k, 2, c) && e[12 + c] == UnmixedByte(k, 3, c)
    ensures ColumnUnmixed(k, e, c)
  {
    hide UnmixedByte;
  }

  lemma ColumnUnmixedStill(k: Block, b: seq<Byte>, e: seq<Byte>, j: nat)
    requires |b| == |e| == 16 && j < 4 && ColumnUnmixed(k, b, j) && SameColumn(b, e, j)
    ensures ColumnUnmixed(k, e, j)
  {
    hide UnmixedByte;
  }

  lemma UnmixedAll(k: Block, b: seq<Byte>)
    requires ColumnsUnmixed(k, b, 4)
    ensures b == UnmixedColumns(k)
  {
    hide UnmixedByte;
    forall i | 0 <= i < 16
      ensures b[i] == UnmixedColumns(k)[i]
    {
      assert ColumnUnmixed(k, b, i % 4);
      assert i == 4 * (i / 4) + i % 4;
    }
  }

  // ----- the definitions of the cipher, one step unfolded

  lemma NoRounds(b: Block, k: seq<Byte>)
    requires |k| == 176
    ensures Rounds(b, k, 0) == AddedKey(b, KeyAt(k, 0))
  {
  }

  lemma OneRound(b: Block, k: seq<Byte>, r: nat)
    requires |k| == 176 && 1 <= r < 10
    ensures Rounds(b, k, r) == Round(Rounds(b, k, r - 1), k, r)
    ensures var x := Rounds(b, k, r - 1);
            Round(x, k, r) == AddedKey(MixedColumns(Shifted(Substituted(x))), KeyAt(k, r))
  {
  }

  lemma LastRound(b: Block, k: seq<Byte>)
    requires |k| == 176
    ensures Encrypted(b, k) == AddedKey(Shifted(Substituted(Rounds(b, k, 9))), KeyAt(k, 10))
  {
  }

  lemma NoRoundsBack(b: Block, k: seq<Byte>)
    requires |k| == 176
    ensures RoundsBack(b, k, 0) == b
  {
  }

  lemma OneRoundBack(b: Block, k: seq<Byte>, r: nat)
    requires |k| == 176 && 1 <= r < 10
    ensures RoundsBack(b, k, r) == RoundsBack(RoundBack(b, k, r), k, r - 1)
    ensures RoundBack(b, k, r) == Unshifted(Unsubstituted(UnmixedColumns(AddedKey(b, KeyAt(k, r)))))
  {
  }

  lemma AllRoundsBack(b: Block, k: seq<Byte>)
    requires |k| == 176
    ensures var x := Unshifted(Unsubstituted(AddedKey(b, KeyAt(k, 10))));
            Decrypted(b, k) == AddedKey(RoundsBack(x, k, 9), KeyAt(k, 0))
  {
  }
}

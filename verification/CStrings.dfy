/** Strings in memory: they end before the first zero. */
module CStrings {
  import opened Bits

  type CString = s: seq<Byte> | 0 !in s

  function Terminated(s: seq<Byte>): seq<Byte> {
    s + [0]
  }

  /** A string in a buffer: what stands before the first zero. */
  function StringIn(d: seq<Byte>): (s: seq<Byte>)
    ensures |s| <= |d| && s == d[..|s|] && 0 !in s
    ensures 0 in d ==> |s| < |d| && d[|s|] == 0
    ensures 0 !in d ==> s == d
  {
    if d == [] || d[0] == 0 then [] else [d[0]] + StringIn(d[1..])
  }

  lemma {:induction false} StringBack(s: CString, rest: seq<Byte>)
    ensures StringIn(Terminated(s) + rest) == s && 0 in Terminated(s) + rest
  {
    var d := Terminated(s) + rest;
    assert d[|s|] == 0;
    if s != [] {
      var tail: CString := s[1..];
      StringBack(tail, rest);
      assert d[1..] == Terminated(tail) + rest;
    }
  }
}

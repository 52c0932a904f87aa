/** The few string operations of Python that the loaders and path helpers use.
    Whitespace is what `str.isspace` accepts; case is ASCII case. */
module Texts {

  predicate IsSpace(c: char)
  {
    || c == ' ' || '\t' <= c <= '\r' || '\U{1C}' <= c <= '\U{1F}'
    || c == '\U{85}' || c == '\U{A0}' || c == '\U{1680}' || '\U{2000}' <= c <= '\U{200A}'
    || c == '\U{2028}' || c == '\U{2029}' || c == '\U{202F}' || c == '\U{205F}' || c == '\U{3000}'
  }

  function StripLeft(s: string): string
  {
    if s != [] && IsSpace(s[0]) then StripLeft(s[1..]) else s
  }

  function StripRight(s: string): string
  {
    if s != [] && IsSpace(s[|s| - 1]) then StripRight(s[..|s| - 1]) else s
  }

  function Strip(s: string): string
  {
    StripRight(StripLeft(s))
  }

  /** No whitespace at either end. */
  predicate Trimmed(s: string)
  {
    s == [] || (!IsSpace(s[0]) && !IsSpace(s[|s| - 1]))
  }

  lemma {:induction false} StripLeftTrims(s: string)
    ensures StripLeft(s) == [] || !IsSpace(StripLeft(s)[0])
    ensures |StripLeft(s)| <= |s| && StripLeft(s) == s[|s| - |StripLeft(s)|..]
  {
    if s != [] && IsSpace(s[0]) { StripLeftTrims(s[1..]); }
  }

  lemma {:induction false} StripRightTrims(s: string)
    ensures StripRight(s) == [] || !IsSpace(StripRight(s)[|StripRight(s)| - 1])
    ensures |StripRight(s)| <= |s| && StripRight(s) == s[..|StripRight(s)|]
  {
    if s != [] && IsSpace(s[|s| - 1]) { StripRightTrims(s[..|s| - 1]); }
  }

  /** Stripping leaves a trimmed text, and is the identity exactly on those. */
  lemma StripTrims(s: string)
    ensures Trimmed(Strip(s))
    ensures Strip(s) == s <==> Trimmed(s)
    ensures |Strip(s)| <= |s|
    ensures forall c | c in Strip(s) :: c in s
  {
    StripLeftTrims(s);
    StripRightTrims(StripLeft(s));
  }

  predicate AllSpace(s: string)
  {
    forall i | 0 <= i < |s| :: IsSpace(s[i])
  }

  lemma {:induction false} StripLeftDrops(s: string)
    ensures |StripLeft(s)| <= |s| && AllSpace(s[..|s| - |StripLeft(s)|])
  {
    if s != [] && IsSpace(s[0]) {
      StripLeftDrops(s[1..]);
      assert forall i | 0 < i < |s| :: s[i] == s[1..][i - 1];
    }
  }

  lemma {:induction false} StripRightDrops(s: string)
    ensures |StripRight(s)| <= |s| && AllSpace(s[|StripRight(s)|..])
  {
    if s != [] && IsSpace(s[|s| - 1]) {
      StripRightDrops(s[..|s| - 1]);
      var n := |s| - 1;
      assert forall i | |StripRight(s)| <= i < n :: s[i] == s[..n][|StripRight(s)|..][i - |StripRight(s)|];
    }
  }

  /** Stripping takes whitespace off the two ends and nothing else. */
  lemma StripDropsOnlySpace(s: string) returns (before: string, after: string)
    ensures s == before + Strip(s) + after && AllSpace(before) && AllSpace(after)
  {
    StripLeftTrims(s);
    StripLeftDrops(s);
    var t := StripLeft(s);
    StripRightTrims(t);
    StripRightDrops(t);
    before, after := s[..|s| - |t|], t[|Strip(s)|..];
    assert s == before + t && t == Strip(s) + after;
  }

  /** Lowering takes each capital to the letter at its place in the alphabet, and keeps every
      other character. */
  lemma LowersLetters(c: char)
    ensures 'A' <= c <= 'Z' ==>
              'a' <= LowerChar(c) <= 'z' && LowerChar(c) as int - 'a' as int == c as int - 'A' as int
    ensures !('A' <= c <= 'Z') ==> LowerChar(c) == c
  {
  }

  function LowerChar(c: char): char
  {
    if 'A' <= c <= 'Z' then (c as int + 32) as char else c
  }

  function Lower(s: string): (r: string)
    ensures |r| == |s| && forall i | 0 <= i < |s| :: r[i] == LowerChar(s[i])
  {
    seq(|s|, i requires 0 <= i < |s| => LowerChar(s[i]))
  }

  lemma StripLowerIdempotent(s: string)
    ensures Lower(Strip(Lower(Strip(s)))) == Lower(Strip(s))
  {
    StripTrims(s);
    var t := Lower(Strip(s));
    assert Trimmed(t);
    StripTrims(t);
    assert Lower(t) == t;
  }
}

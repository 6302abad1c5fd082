/** Well-formed UTF-8 (section 4 of RFC 3629). */
module Utf8 {
  import opened Basics

  predicate IsTail(b: byte) {
    0x80 <= b <= 0xBF
  }

  /** Length of the character at the start, 0 if there is no well-formed one. */
  function CharLength(s: bytes): (n: nat)
    ensures n <= 4 && n <= |s|
  {
    if |s| >= 1 && s[0] <= 0x7F then 1
    else if |s| >= 2 && 0xC2 <= s[0] <= 0xDF && IsTail(s[1]) then 2
    else if |s| >= 3 && 0xE0 <= s[0] <= 0xEF && IsTail(s[1]) && IsTail(s[2])
            && (s[0] == 0xE0 ==> s[1] >= 0xA0) && (s[0] == 0xED ==> s[1] <= 0x9F) then 3
    else if |s| >= 4 && 0xF0 <= s[0] <= 0xF4 && IsTail(s[1]) && IsTail(s[2]) && IsTail(s[3])
            && (s[0] == 0xF0 ==> s[1] >= 0x90) && (s[0] == 0xF4 ==> s[1] <= 0x8F) then 4
    else 0
  }

  predicate Valid(s: bytes)
    decreases |s|
  {
    s == [] || (CharLength(s) > 0 && Valid(s[CharLength(s)..]))
  }

  /** After valid text the validity of the whole is that of the rest. */
  lemma {:induction false} ValidAppend(a: bytes, b: bytes)
    requires Valid(a)
    ensures Valid(a + b) <==> Valid(b)
    decreases |a|
  {
    if a == [] {
      assert a + b == b;
    } else {
      var n := CharLength(a);
      assert CharLength(a + b) == n;
      assert (a + b)[n..] == a[n..] + b;
      ValidAppend(a[n..], b);
    }
  }

  // ---------------------------------------------------------------- meaning

  function TailBits(b: byte): int {
    var n: int := b;
    n - 0x80
  }

  /** The code point written by one to four bytes, six bits in each but the first. */
  function CodePoint(s: bytes): int
    requires 1 <= |s| <= 4
  {
    var a: int := s[0];
    var b := if |s| > 1 then TailBits(s[1]) else 0;
    var c := if |s| > 2 then TailBits(s[2]) else 0;
    var d := if |s| > 3 then TailBits(s[3]) else 0;
    if |s| == 1 then a
    else if |s| == 2 then (a - 0xC0) * 64 + b
    else if |s| == 3 then (a - 0xE0) * 4096 + b * 64 + c
    else (a - 0xF0) * 262_144 + b * 4096 + c * 64 + d
  }

  /** A character as section 3 of RFC 3629 defines it: a leading byte that announces
      the length, tails, and a code point that needs that length, is no surrogate
      and is at most 0x10FFFF. */
  predicate IsCharacter(s: bytes) {
    && 1 <= |s| <= 4
    && (forall i | 1 <= i < |s| :: IsTail(s[i]))
    && (|s| == 1 ==> s[0] < 0x80)
    && (|s| == 2 ==> 0xC0 <= s[0] < 0xE0 && 0x80 <= CodePoint(s))
    && (|s| == 3 ==> 0xE0 <= s[0] < 0xF0 && 0x800 <= CodePoint(s) && !(0xD800 <= CodePoint(s) < 0xE000))
    && (|s| == 4 ==> 0xF0 <= s[0] < 0xF8 && 0x1_0000 <= CodePoint(s) < 0x11_0000)
  }

  lemma CharacterExact(s: bytes, n: nat)
    requires 0 < n <= |s|
    ensures CharLength(s) == n <==> IsCharacter(s[..n])
  {
    var t := s[..n];
    assert t[0] == s[0];
    assert n > 1 ==> t[1] == s[1];
    assert n > 2 ==> t[2] == s[2];
    assert n > 3 ==> t[3] == s[3];
  }

  function Join(parts: seq<bytes>): bytes {
    if parts == [] then [] else parts[0] + Join(parts[1..])
  }

  ghost predicate AreCharacters(parts: seq<bytes>) {
    forall part | part in parts :: IsCharacter(part)
  }

  lemma {:induction false} CharactersAreValid(parts: seq<bytes>)
    requires AreCharacters(parts)
    ensures Valid(Join(parts))
  {
    hide IsCharacter;
    if parts != [] {
      var n := |parts[0]|;
      var s := Join(parts);
      assert parts[0] in parts && forall part | part in parts[1..] :: part in parts;
      CharactersAreValid(parts[1..]);
      IsNotEmpty(parts[0]);
      assert s[..n] == parts[0] && s[n..] == Join(parts[1..]);
      CharacterExact(s, n);
    }
  }

  lemma IsNotEmpty(s: bytes)
    requires IsCharacter(s)
    ensures s != []
  {
  }

  lemma {:induction false} ValidSplits(s: bytes) returns (parts: seq<bytes>)
    requires Valid(s)
    ensures AreCharacters(parts) && Join(parts) == s
    decreases |s|
  {
    hide IsCharacter;
    parts := [];
    if s != [] {
      var n := CharLength(s);
      CharacterExact(s, n);
      var rest := ValidSplits(s[n..]);
      parts := [s[..n]] + rest;
      assert s == s[..n] + s[n..] && parts[1..] == rest;
    }
  }

  /** Text is valid exactly if it is a sequence of such characters. */
  lemma ValidIsCharacters(s: bytes)
    ensures Valid(s) <==> exists parts :: AreCharacters(parts) && Join(parts) == s
  {
    if Valid(s) {
      var parts := ValidSplits(s);
    }
    if parts :| AreCharacters(parts) && Join(parts) == s {
      CharactersAreValid(parts);
    }
  }
}

/** Reading and tokenizing kernel tables (src/core/collectors/procfs.rs). */
module Procfs {
  import opened Basics

  const TAB: byte := 9
  const NEWLINE: byte := 10
  const FORM_FEED: byte := 12
  const RETURN: byte := 13
  const SPACE: byte := 32
  const BACKSLASH: byte := 92

  // ---------------------------------------------------------------- octal escapes

  predicate IsOctal(b: byte) {
    48 <= b <= 55
  }

  function Digit(b: byte): nat
    requires IsOctal(b)
  {
    var n: int := b;
    n - 48
  }

  predicate IsOctalEscape(s: bytes) {
    |s| >= 4 && s[0] == BACKSLASH && IsOctal(s[1]) && IsOctal(s[2]) && IsOctal(s[3])
  }

  /** The number that the three digits write. */
  function OctalValue(s: bytes): nat
    requires IsOctalEscape(s)
  {
    Digit(s[1]) * 64 + Digit(s[2]) * 8 + Digit(s[3])
  }

  /** Computed in one byte, the sum wraps around. */
  function OctalByte(s: bytes): byte
    requires IsOctalEscape(s)
  {
    OctalValue(s) % 256
  }

  function Decode(s: bytes): bytes
    decreases |s|
  {
    if s == [] then []
    else if IsOctalEscape(s) then [OctalByte(s)] + Decode(s[4..])
    else [s[0]] + Decode(s[1..])
  }

  /** Conversion of arbitrary bytes to text; it leaves valid text alone. */
  type Lossy = bytes -> bytes

  function Unescape(s: bytes, lossy: Lossy): bytes {
    if BACKSLASH !in s then s else lossy(Decode(s))
  }

  lemma DecodeNothing(s: bytes)
    requires s == []
    ensures Decode(s) == []
  {
  }

  lemma DecodeStep(out: bytes, rest: bytes)
    requires rest != []
    ensures out + Decode(rest) ==
            if IsOctalEscape(rest) then out + [OctalByte(rest)] + Decode(rest[4..])
            else out + [rest[0]] + Decode(rest[1..])
  {
    hide OctalByte;
    if IsOctalEscape(rest) {
      assert out + ([OctalByte(rest)] + Decode(rest[4..])) == out + [OctalByte(rest)] + Decode(rest[4..]);
    } else {
      assert out + ([rest[0]] + Decode(rest[1..])) == out + [rest[0]] + Decode(rest[1..]);
    }
  }

  method UnescapeMountField(s: bytes, lossy: Lossy) returns (r: bytes)
    ensures r == Unescape(s, lossy)
  {
    if BACKSLASH !in s {
      return s;
    }
    hide Decode;
    var out: bytes := [];
    var i := 0;
    assert out + Decode(s) == Decode(s) && s[0..] == s;
    while i < |s|
      invariant 0 <= i <= |s|
      invariant Decode(s) == out + Decode(s[i..])
    {
      var rest := s[i..];
      DecodeStep(out, rest);
      if s[i] == BACKSLASH && i + 3 < |s| && IsOctal(s[i + 1]) && IsOctal(s[i + 2]) && IsOctal(s[i + 3]) {
        var value := (Digit(s[i + 1]) * 64 + Digit(s[i + 2]) * 8 + Digit(s[i + 3])) % 256;
        assert rest[4..] == s[i + 4..];
        out := out + [value];
        i := i + 4;
      } else {
        assert rest[1..] == s[i + 1..];
        out := out + [s[i]];
        i := i + 1;
      }
    }
    DecodeNothing(s[|s|..]);
    assert out + [] == out;
    return lossy(out);
  }

  /** How the kernel writes a field: every special byte as a backslash and three
      octal digits. */
  function Escape(s: bytes, special: byte -> bool): bytes {
    if s == [] then []
    else (if special(s[0]) then OctalEscape(s[0]) else [s[0]]) + Escape(s[1..], special)
  }

  function OctalEscape(b: byte): bytes {
    var n: int := b;
    [BACKSLASH, 48 + n / 64, 48 + n / 8 % 8, 48 + n % 8]
  }

  /** Decoding undoes the kernel's escaping of any set of bytes that contains
      the backslash, also where the text already looks like an escape. */
  lemma {:induction false} EscapeRoundTrip(s: bytes, special: byte -> bool)
    requires special(BACKSLASH)
    ensures Decode(Escape(s, special)) == s
  {
    if s != [] {
      EscapeRoundTrip(s[1..], special);
      var e := Escape(s, special);
      var tail := Escape(s[1..], special);
      if special(s[0]) {
        OctalDigits(s[0]);
        assert e == OctalEscape(s[0]) + tail;
        assert e[4..] == tail && e[1] == OctalEscape(s[0])[1];
        assert OctalByte(e) == OctalByte(OctalEscape(s[0]));
      } else {
        assert e == [s[0]] + tail && e[1..] == tail;
      }
      assert s == [s[0]] + s[1..];
    }
  }

  lemma OctalDigits(b: byte)
    ensures IsOctalEscape(OctalEscape(b)) && OctalByte(OctalEscape(b)) == b
  {
    var n: int := b;
    OctalPlaces(n);
  }

  lemma OctalPlaces(n: nat)
    requires n < 256
    ensures n == n / 64 * 64 + n / 8 % 8 * 8 + n % 8
    ensures n / 64 < 4
  {
    var m := n / 8;
    assert n == m * 8 + n % 8;
    assert m == m / 8 * 8 + m % 8;
    assert m / 8 == n / 64;
  }

  /** No escape starts at any of the first n bytes. */
  ghost predicate NoEscapeIn(s: bytes, n: nat)
    requires n <= |s|
  {
    forall i | 0 <= i < n :: !IsOctalEscape(s[i..])
  }

  lemma NoEscapeLater(text: bytes, rest: bytes)
    requires text != [] && NoEscapeIn(text + rest, |text|)
    ensures NoEscapeIn(text[1..] + rest, |text| - 1)
    ensures Decode(text + rest) == [text[0]] + Decode(text[1..] + rest)
  {
    hide IsOctalEscape;
    var all := text + rest;
    assert all[0..] == all && all[1..] == text[1..] + rest;
    forall i | 0 <= i < |text| - 1
      ensures !IsOctalEscape((text[1..] + rest)[i..])
    {
      assert (text[1..] + rest)[i..] == all[i + 1..];
    }
  }

  lemma {:induction false} DecodeCopies(text: bytes, rest: bytes)
    requires NoEscapeIn(text + rest, |text|)
    ensures Decode(text + rest) == text + Decode(rest)
  {
    if text == [] {
      assert text + rest == rest && [] + Decode(rest) == Decode(rest);
    } else {
      NoEscapeLater(text, rest);
      hide Decode, NoEscapeIn;
      DecodeCopies(text[1..], rest);
      assert [text[0]] + (text[1..] + Decode(rest)) == text + Decode(rest);
    }
  }

  /** The number that three octal digits write, in one byte. */
  lemma EscapeValue(s: bytes)
    requires IsOctalEscape(s)
    ensures var high: int, middle: int, low: int := s[1], s[2], s[3];
            OctalByte(s) == ((high - 48) * 64 + (middle - 48) * 8 + (low - 48)) % 256
  {
  }

  /** What is no escape is copied, whatever backslashes it contains; the first
      escape gives the byte that its three digits write, wrapped around, and the
      rest is decoded in the same way. */
  lemma DecodeExact(text: bytes, rest: bytes)
    requires NoEscapeIn(text + rest, |text|)
    ensures rest == [] ==> Decode(text) == text
    ensures IsOctalEscape(rest) ==>
              var high: int, middle: int, low: int := rest[1], rest[2], rest[3];
              var value := (high - 48) * 64 + (middle - 48) * 8 + (low - 48);
              Decode(text + rest) == text + [value % 256] + Decode(rest[4..])
  {
    hide Decode, OctalByte, NoEscapeIn;
    DecodeCopies(text, rest);
    if rest == [] {
      DecodeNothing(rest);
      assert text + rest == text && text + [] == text;
    } else if IsOctalEscape(rest) {
      EscapeValue(rest);
      DecodeStep([], rest);
      assert [] + Decode(rest) == Decode(rest) && [] + [OctalByte(rest)] == [OctalByte(rest)];
      hide IsOctalEscape;
      assert text + ([OctalByte(rest)] + Decode(rest[4..])) == text + [OctalByte(rest)] + Decode(rest[4..]);
    }
  }

  /** An escape decodes to the number it writes exactly when its first digit is
      at most three; from `\400` on the byte wraps around. */
  lemma EscapeFitsByte(s: bytes)
    requires IsOctalEscape(s)
    ensures OctalByte(s) == OctalValue(s) <==> s[1] <= 51
  {
  }

  lemma {:induction false} DecodeNeverGrows(s: bytes)
    ensures |Decode(s)| <= |s|
    ensures |Decode(s)| == |s| ==> Decode(s) == s
    decreases |s|
  {
    if s != [] {
      if IsOctalEscape(s) {
        DecodeNeverGrows(s[4..]);
      } else {
        DecodeNeverGrows(s[1..]);
        assert s == [s[0]] + s[1..];
      }
    }
  }

  // ---------------------------------------------------------------- lines and fields

  predicate IsSpace(b: byte) {
    b == TAB || b == NEWLINE || b == FORM_FEED || b == RETURN || b == SPACE
  }

  /** Length of the run of non-space bytes at the start. */
  function WordLength(s: bytes): (n: nat)
    ensures n <= |s| && (forall i | 0 <= i < n :: !IsSpace(s[i])) && (n < |s| ==> IsSpace(s[n]))
  {
    if s == [] || IsSpace(s[0]) then 0 else 1 + WordLength(s[1..])
  }

  function Fields(s: bytes): seq<bytes>
    decreases |s|
  {
    if s == [] then []
    else if IsSpace(s[0]) then Fields(s[1..])
    else [s[..WordLength(s)]] + Fields(s[WordLength(s)..])
  }

  predicate IsWord(s: bytes) {
    s != [] && forall b | b in s :: !IsSpace(b)
  }

  lemma {:induction false} FieldsAreWords(s: bytes)
    ensures forall w | w in Fields(s) :: IsWord(w)
    decreases |s|
  {
    if s != [] {
      if IsSpace(s[0]) {
        FieldsAreWords(s[1..]);
      } else {
        FieldsAreWords(s[WordLength(s)..]);
      }
    }
  }

  lemma {:induction false} WordLengthOf(word: bytes, rest: bytes)
    requires (forall b | b in word :: !IsSpace(b)) && rest != [] && IsSpace(rest[0])
    ensures WordLength(word + rest) == |word|
  {
    if word == [] {
      assert word + rest == rest;
    } else {
      assert word[0] in word && (word + rest)[1..] == word[1..] + rest;
      WordLengthOf(word[1..], rest);
    }
  }

  /** Blanks before a field do not matter, and a field ends at the next blank or at
      the end of the line. */
  lemma FieldsExact(blanks: bytes, word: bytes, rest: bytes)
    requires (forall b | b in blanks :: b == SPACE || b == TAB) && IsWord(word)
    requires rest == [] || IsSpace(rest[0])
    ensures Fields(blanks + word + rest) == [word] + Fields(rest)
    ensures Fields(blanks) == []
  {
    BlanksAreSkipped(blanks, word + rest);
    BlanksAreSkipped(blanks, []);
    assert blanks + [] == blanks && blanks + (word + rest) == blanks + word + rest;
    assert word[0] in word;
    if rest == [] {
      WordLengthOfAll(word);
      assert word + rest == word && word[..|word|] == word && word[|word|..] == [];
    } else {
      WordLengthOf(word, rest);
      assert (word + rest)[..|word|] == word && (word + rest)[|word|..] == rest;
    }
  }

  lemma {:induction false} BlanksAreSkipped(blanks: bytes, rest: bytes)
    requires forall b | b in blanks :: b == SPACE || b == TAB
    ensures Fields(blanks + rest) == Fields(rest)
  {
    if blanks == [] {
      assert blanks + rest == rest;
    } else {
      assert blanks[0] in blanks && forall b | b in blanks[1..] :: b in blanks;
      assert (blanks + rest)[1..] == blanks[1..] + rest;
      BlanksAreSkipped(blanks[1..], rest);
    }
  }

  lemma {:induction false} WordLengthOfAll(word: bytes)
    requires forall b | b in word :: !IsSpace(b)
    ensures WordLength(word) == |word|
  {
    if word != [] {
      assert word[0] in word;
      WordLengthOfAll(word[1..]);
    }
  }

  lemma FieldsCons(word: bytes, rest: bytes)
    requires IsWord(word)
    ensures Fields(word + [SPACE] + rest) == [word] + Fields(rest)
  {
    var s := word + [SPACE] + rest;
    assert s[0] == word[0] && word[0] in word;
    WordLengthOf(word, [SPACE] + rest);
    assert word + ([SPACE] + rest) == s;
    assert s[..|word|] == word;
    assert s[|word|..] == [SPACE] + rest;
    assert ([SPACE] + rest)[1..] == rest;
  }

  function FindNewline(s: bytes): (n: nat)
    ensures n <= |s| && (n < |s| ==> s[n] == NEWLINE) && NEWLINE !in s[..n]
  {
    if s == [] || s[0] == NEWLINE then 0 else 1 + FindNewline(s[1..])
  }

  /** A return before the newline belongs to the line ending. */
  function StripReturn(line: bytes): bytes {
    if line != [] && line[|line| - 1] == RETURN then line[..|line| - 1] else line
  }

  /** Lines without their endings, which are a newline or a return and newline. */
  function Lines(s: bytes): seq<bytes>
    decreases |s|
  {
    if s == [] then []
    else
      var n := FindNewline(s);
      if n == |s| then [s]
      else
        [StripReturn(s[..n])] + Lines(s[n + 1..])
  }

  lemma {:induction false} FindNewlineOf(line: bytes, rest: bytes)
    requires NEWLINE !in line
    ensures FindNewline(line + [NEWLINE] + rest) == |line|
  {
    if line != [] {
      assert (line + [NEWLINE] + rest)[1..] == line[1..] + [NEWLINE] + rest;
      FindNewlineOf(line[1..], rest);
    }
  }

  /** A last line without a newline counts as well, and keeps its return. */
  lemma LastLine(line: bytes)
    requires NEWLINE !in line
    ensures Lines(line) == if line == [] then [] else [line]
  {
  }

  lemma LinesCons(line: bytes, rest: bytes)
    requires NEWLINE !in line
    ensures Lines(line + [NEWLINE] + rest) == [StripReturn(line)] + Lines(rest)
  {
    var s := line + [NEWLINE] + rest;
    FindNewlineOf(line, rest);
    assert s[..|line|] == line && s[|line| + 1..] == rest;
  }
}

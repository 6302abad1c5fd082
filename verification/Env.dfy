/** `${NAME}` substitution in configuration strings (src/config/env.rs). Text is
    its UTF-8 bytes, so offsets are byte offsets as `expand` counts them. */
module Env {
  import opened Basics

  const DOLLAR: byte := 36
  const OPEN: byte := 123
  const CLOSE: byte := 125

  datatype EnvError = Unset(name: bytes) | Malformed(offset: nat)

  type Expanded = Result<bytes, EnvError>

  type Lookup = bytes -> Option<bytes>

  /** The text starts with `$${`. */
  predicate IsEscape(s: bytes) {
    |s| >= 3 && s[0] == DOLLAR && s[1] == DOLLAR && s[2] == OPEN
  }

  /** The text starts with `${`. */
  predicate IsReference(s: bytes) {
    |s| >= 2 && s[0] == DOLLAR && s[1] == OPEN
  }

  predicate IsBrace(s: bytes) {
    s != [] && s[0] == OPEN
  }

  predicate IsNameByte(b: byte) {
    48 <= b <= 57 || 65 <= b <= 90 || 97 <= b <= 122 || b == 95
  }

  /** Letters of both cases, digits and the underscore, and no others. */
  lemma NameCharacters(c: char)
    requires c as int < 256
    ensures IsNameByte(c as int) <==> 'A' <= c <= 'Z' || 'a' <= c <= 'z' || '0' <= c <= '9' || c == '_'
  {
  }

  predicate IsName(s: bytes) {
    s != [] && forall b | b in s :: IsNameByte(b)
  }

  /** Position of the first occurrence. */
  function Find(s: bytes, b: byte): (r: Option<nat>)
    ensures r.Some? ==> r.value < |s| && s[r.value] == b && b !in s[..r.value]
    ensures r.None? ==> b !in s
  {
    if s == [] then None
    else if s[0] == b then Some(0)
    else
      match Find(s[1..], b)
      case None => None
      case Some(i) => Some(i + 1)
  }

  /** Puts text in front of an expansion that succeeded. */
  function Prepend(text: bytes, r: Expanded): Expanded {
    match r
    case Ok(rest) => Ok(text + rest)
    case Err(e) => Err(e)
  }

  /** What stands at the head of `rest`, which starts at `offset` of the input:
      the text it expands to and its length, or the error it stops with. */
  function Head(rest: bytes, offset: nat, lookup: Lookup): (r: Result<(bytes, nat), EnvError>)
    requires rest != []
    ensures r.Ok? ==> 0 < r.value.1 <= |rest|
  {
    if IsEscape(rest) then Ok(([DOLLAR, OPEN], 3))
    else if IsReference(rest) then
      match Find(rest[2..], CLOSE)
      case None => Err(Malformed(offset))
      case Some(end) =>
        var name := rest[2..2 + end];
        if !IsName(name) then Err(Malformed(offset))
        else
          match lookup(name)
          case None => Err(Unset(name))
          case Some(value) => Ok((value, 2 + end + 1))
    else Ok((rest[..1], 1))
  }

  function Scan(rest: bytes, offset: nat, lookup: Lookup): Expanded
    decreases |rest|
  {
    if rest == [] then Ok([])
    else
      match Head(rest, offset, lookup)
      case Err(e) => Err(e)
      case Ok((text, length)) => Prepend(text, Scan(rest[length..], offset + length, lookup))
  }

  function Expand(input: bytes, lookup: Lookup): Expanded {
    Scan(input, 0, lookup)
  }

  lemma PrependTwice(a: bytes, b: bytes, r: Expanded)
    ensures Prepend(a, Prepend(b, r)) == Prepend(a + b, r)
  {
    if r.Ok? {
      assert a + (b + r.value) == a + b + r.value;
    }
  }

  lemma PrependNothing(r: Expanded)
    ensures Prepend([], r) == r
  {
    if r.Ok? {
      assert [] + r.value == r.value;
    }
  }

  // ---------------------------------------------------------------- the scanner

  lemma {:induction false} ScanPlain(plain: bytes, rest: bytes, offset: nat, lookup: Lookup)
    requires DOLLAR !in plain
    ensures Scan(plain + rest, offset, lookup) == Prepend(plain, Scan(rest, offset + |plain|, lookup))
  {
    if plain == [] {
      assert plain + rest == rest;
      PrependNothing(Scan(rest, offset, lookup));
    } else {
      var all := plain + rest;
      assert all[1..] == plain[1..] + rest;
      assert all[..1] == plain[..1] && plain[0] in plain;
      ScanPlain(plain[1..], rest, offset + 1, lookup);
      PrependTwice(plain[..1], plain[1..], Scan(rest, offset + |plain|, lookup));
      assert plain[..1] + plain[1..] == plain;
    }
  }

  /** The scanner may jump to the next dollar, copying what lies before it. */
  lemma SkipPlain(out: bytes, rest: bytes, pos: nat, offset: nat, lookup: Lookup)
    requires pos <= |rest| && DOLLAR !in rest[..pos]
    ensures Prepend(out, Scan(rest, offset, lookup)) ==
            Prepend(out + rest[..pos], Scan(rest[pos..], offset + pos, lookup))
  {
    hide Scan, Head, Find;
    assert rest == rest[..pos] + rest[pos..];
    ScanPlain(rest[..pos], rest[pos..], offset, lookup);
    PrependTwice(out, rest[..pos], Scan(rest[pos..], offset + pos, lookup));
  }

  lemma ScanNothing(offset: nat, lookup: Lookup)
    ensures Scan([], offset, lookup) == Ok([])
  {
  }

  lemma ScanUnfold(a: bytes, offset: nat, lookup: Lookup)
    requires a != []
    ensures var head := Head(a, offset, lookup);
            && (head.Err? ==> Scan(a, offset, lookup) == Err(head.error))
            && (head.Ok? ==>
                  Scan(a, offset, lookup) ==
                  Prepend(head.value.0, Scan(a[head.value.1..], offset + head.value.1, lookup)))
  {
    hide Head, Find;
  }

  lemma ScanHead(out: bytes, rest: bytes, offset: nat, lookup: Lookup)
    requires rest != []
    ensures var r := Head(rest, offset, lookup);
            Prepend(out, Scan(rest, offset, lookup)) ==
            if r.Err? then Err(r.error)
            else Prepend(out + r.value.0, Scan(rest[r.value.1..], offset + r.value.1, lookup))
  {
    hide Head, Find;
    var r := Head(rest, offset, lookup);
    if r.Ok? {
      PrependTwice(out, r.value.0, Scan(rest[r.value.1..], offset + r.value.1, lookup));
    }
  }

  lemma DropTwice(s: bytes, i: nat, j: nat)
    requires i + j <= |s|
    ensures s[i..][j..] == s[i + j..]
  {
  }

  lemma ScanToEnd(out: bytes, rest: bytes, offset: nat, lookup: Lookup)
    requires DOLLAR !in rest
    ensures Prepend(out, Scan(rest, offset, lookup)) == Ok(out + rest)
  {
    hide Scan;
    assert rest[..|rest|] == rest && rest[|rest|..] == [];
    SkipPlain(out, rest, |rest|, offset, lookup);
    ScanNothing(offset + |rest|, lookup);
    assert out + rest + [] == out + rest;
  }

  /** What one pass of the scanner's loop achieves. */
  lemma ScanToDollar(input: bytes, out: bytes, pos: nat, offset: nat, lookup: Lookup)
    requires offset <= |input| && Find(input[offset..], DOLLAR) == Some(pos)
    requires Expand(input, lookup) == Prepend(out, Scan(input[offset..], offset, lookup))
    ensures var rest := input[offset..];
            var r := Head(rest[pos..], offset + pos, lookup);
            if r.Err? then Expand(input, lookup) == Err(r.error)
            else
              var next := offset + pos + r.value.1;
              && next <= |input|
              && rest[pos..][r.value.1..] == input[next..]
              && Expand(input, lookup) == Prepend(out + rest[..pos] + r.value.0, Scan(input[next..], next, lookup))
  {
    hide Head, Find, Scan, Prepend, Expand;
    var rest := input[offset..];
    SkipPlain(out, rest, pos, offset, lookup);
    ScanHead(out + rest[..pos], rest[pos..], offset + pos, lookup);
    var r := Head(rest[pos..], offset + pos, lookup);
    if r.Ok? {
      DropTwice(rest, pos, r.value.1);
      DropTwice(input, offset, pos + r.value.1);
    }
  }

  lemma ScanFromStart(input: bytes, lookup: Lookup)
    ensures Expand(input, lookup) == Prepend([], Scan(input, 0, lookup))
    ensures DOLLAR !in input ==> Expand(input, lookup) == Ok(input)
  {
    hide Scan;
    PrependNothing(Scan(input, 0, lookup));
    if DOLLAR !in input {
      ScanToEnd([], input, 0, lookup);
      assert [] + input == input;
    }
  }

  /** A single pass over the input that never looks at what it has written;
      `rest` is always the input from `offset` on. */
  method ExpandString(input: bytes, lookup: Lookup) returns (r: Expanded)
    ensures r == Expand(input, lookup)
  {
    hide Head, Find, Scan, Prepend, Expand;
    ScanFromStart(input, lookup);
    if DOLLAR !in input {
      return Ok(input);
    }
    var out: bytes := [];
    var rest := input;
    var offset: nat := 0;
    while true
      invariant offset <= |input| && rest == input[offset..]
      invariant Expand(input, lookup) == Prepend(out, Scan(rest, offset, lookup))
      decreases |rest|
    {
      var found := Find(rest, DOLLAR);
      if found.None? {
        ScanToEnd(out, rest, offset, lookup);
        return Ok(out + rest);
      }
      var pos := found.value;
      ScanToDollar(input, out, pos, offset, lookup);
      out := out + rest[..pos];
      var tail := rest[pos..];
      var step := ReadDollar(tail, offset + pos, lookup);
      if step.Err? {
        return Err(step.error);
      }
      out := out + step.value.0;
      rest := tail[step.value.1..];
      offset := offset + pos + step.value.1;
    }
  }

  /** The three cases of a dollar sign: escaped, a reference, or literal. */
  method ReadDollar(tail: bytes, at: nat, lookup: Lookup) returns (r: Result<(bytes, nat), EnvError>)
    requires tail != [] && tail[0] == DOLLAR
    ensures r == Head(tail, at, lookup)
  {
    if IsEscape(tail) {
      return Ok(([DOLLAR, OPEN], 3));
    }
    if !IsReference(tail) {
      assert tail[..1] == [DOLLAR];
      return Ok(([DOLLAR], 1));
    }
    var after := tail[2..];
    var end := Find(after, CLOSE);
    if end.None? {
      return Err(Malformed(at));
    }
    var name := after[..end.value];
    assert name == tail[2..2 + end.value];
    if !IsName(name) {
      return Err(Malformed(at));
    }
    var value := lookup(name);
    if value.None? {
      return Err(Unset(name));
    }
    return Ok((value.value, 2 + end.value + 1));
  }

  // ---------------------------------------------------------------- grammar

  /** A string as a sequence of tokens, ended by nothing or by an invalid
      reference that runs to its end. */
  datatype Token = Plain(b: byte) | Escaped | Reference(name: bytes)

  function TokenText(t: Token): bytes {
    match t
    case Plain(b) => [b]
    case Escaped => [DOLLAR, DOLLAR, OPEN]
    case Reference(name) => [DOLLAR, OPEN] + name + [CLOSE]
  }

  function Text(ts: seq<Token>, bad: bytes): bytes {
    if ts == [] then bad else TokenText(ts[0]) + Text(ts[1..], bad)
  }

  /** `${` with no closing brace, or with something other than a name before it. */
  predicate IsBad(s: bytes) {
    && IsReference(s)
    && var end := Find(s[2..], CLOSE);
       end.None? || !IsName(s[2..2 + end.value])
  }

  /** The tokens are how a reader splits the text: a lone dollar is followed by
      neither `{` nor `${`, and references carry names. */
  predicate Separated(ts: seq<Token>, bad: bytes) {
    if ts == [] then bad == [] || IsBad(bad)
    else
      var next := Text(ts[1..], bad);
      && Separated(ts[1..], bad)
      && (ts[0] == Plain(DOLLAR) ==> !IsBrace(next) && !IsReference(next))
      && (ts[0].Reference? ==> IsName(ts[0].name))
  }

  /** What the tokens stand for, read from left to right. */
  function Meaning(ts: seq<Token>, bad: bytes, offset: nat, lookup: Lookup): Expanded {
    if ts == [] then if bad == [] then Ok([]) else Err(Malformed(offset))
    else
      var rest := Meaning(ts[1..], bad, offset + |TokenText(ts[0])|, lookup);
      match ts[0]
      case Plain(b) => Prepend([b], rest)
      case Escaped => Prepend([DOLLAR, OPEN], rest)
      case Reference(name) => if lookup(name).None? then Err(Unset(name)) else Prepend(lookup(name).value, rest)
  }

  function Tokens(s: bytes): (r: (seq<Token>, bytes))
    decreases |s|
  {
    if s == [] then ([], [])
    else if IsEscape(s) then
      var (ts, bad) := Tokens(s[3..]);
      ([Escaped] + ts, bad)
    else if IsReference(s) then
      if IsBad(s) then ([], s)
      else
        var end := Find(s[2..], CLOSE).value;
        var (ts, bad) := Tokens(s[2 + end + 1..]);
        ([Reference(s[2..2 + end])] + ts, bad)
    else
      var (ts, bad) := Tokens(s[1..]);
      ([Plain(s[0])] + ts, bad)
  }

  lemma TextCons(t: Token, ts: seq<Token>, bad: bytes)
    requires Separated(ts, bad)
    requires t == Plain(DOLLAR) ==> !IsBrace(Text(ts, bad)) && !IsReference(Text(ts, bad))
    requires t.Reference? ==> IsName(t.name)
    ensures Text([t] + ts, bad) == TokenText(t) + Text(ts, bad)
    ensures Separated([t] + ts, bad)
  {
    assert ([t] + ts)[1..] == ts;
  }

  lemma CoverPlain(s: bytes, ts: seq<Token>, bad: bytes)
    requires s != [] && !IsEscape(s) && !IsReference(s)
    requires Text(ts, bad) == s[1..] && Separated(ts, bad)
    ensures Text([Plain(s[0])] + ts, bad) == s && Separated([Plain(s[0])] + ts, bad)
  {
    TextCons(Plain(s[0]), ts, bad);
    hide Text, Separated;
    assert s == [s[0]] + s[1..];
  }

  lemma CoverEscape(s: bytes, ts: seq<Token>, bad: bytes)
    requires IsEscape(s) && Text(ts, bad) == s[3..] && Separated(ts, bad)
    ensures Text([Escaped] + ts, bad) == s && Separated([Escaped] + ts, bad)
  {
    TextCons(Escaped, ts, bad);
    hide Text, Separated;
    assert s == [DOLLAR, DOLLAR, OPEN] + s[3..];
  }

  lemma CoverReference(s: bytes, end: nat, ts: seq<Token>, bad: bytes)
    requires IsReference(s) && !IsBad(s) && Find(s[2..], CLOSE) == Some(end)
    requires Text(ts, bad) == s[2 + end + 1..] && Separated(ts, bad)
    ensures var name := s[2..2 + end];
            Text([Reference(name)] + ts, bad) == s && Separated([Reference(name)] + ts, bad)
  {
    hide Find;
    TextCons(Reference(s[2..2 + end]), ts, bad);
    hide Text, Separated;
    assert s == [DOLLAR, OPEN] + s[2..2 + end] + [CLOSE] + s[2 + end + 1..];
  }

  /** Every string splits into such tokens. */
  lemma {:induction false} TokensCover(s: bytes)
    ensures var (ts, bad) := Tokens(s); Text(ts, bad) == s && Separated(ts, bad)
    decreases |s|
  {
    hide Find;
    if s == [] || (!IsEscape(s) && IsReference(s) && IsBad(s)) {
    } else {
      hide Text, Separated;
      if IsEscape(s) {
        TokensCover(s[3..]);
        CoverEscape(s, Tokens(s[3..]).0, Tokens(s[3..]).1);
      } else if IsReference(s) {
        var end := Find(s[2..], CLOSE).value;
        TokensCover(s[2 + end + 1..]);
        CoverReference(s, end, Tokens(s[2 + end + 1..]).0, Tokens(s[2 + end + 1..]).1);
      } else {
        TokensCover(s[1..]);
        CoverPlain(s, Tokens(s[1..]).0, Tokens(s[1..]).1);
      }
    }
  }

  lemma {:induction false} FindAfter(before: bytes, b: byte, rest: bytes)
    requires b !in before
    ensures Find(before + [b] + rest, b) == Some(|before|)
  {
    if before != [] {
      assert (before + [b] + rest)[1..] == before[1..] + [b] + rest;
      FindAfter(before[1..], b, rest);
    }
  }

  lemma HeadOfToken(t: Token, next: bytes, offset: nat, lookup: Lookup)
    requires t == Plain(DOLLAR) ==> !IsBrace(next) && !IsReference(next)
    requires t.Reference? ==> IsName(t.name)
    ensures Head(TokenText(t) + next, offset, lookup) ==
            match t
            case Plain(b) => Ok(([b], 1))
            case Escaped => Ok(([DOLLAR, OPEN], 3))
            case Reference(name) =>
              if lookup(name).None? then Err(Unset(name)) else Ok((lookup(name).value, |TokenText(t)|))
  {
    var s := TokenText(t) + next;
    match t
    case Plain(b) =>
      assert s[1..] == next;
    case Escaped =>
      assert s[..3] == [DOLLAR, DOLLAR, OPEN];
    case Reference(name) =>
      assert s[2..] == name + [CLOSE] + next;
      FindAfter(name, CLOSE, next);
      assert s[2..2 + |name|] == name;
  }

  lemma SeparatedStep(ts: seq<Token>, bad: bytes)
    requires Separated(ts, bad) && ts != []
    ensures var next := Text(ts[1..], bad);
            && Separated(ts[1..], bad)
            && (ts[0] == Plain(DOLLAR) ==> !IsBrace(next) && !IsReference(next))
            && (ts[0].Reference? ==> IsName(ts[0].name))
  {
  }

  lemma ScanBad(bad: bytes, offset: nat, lookup: Lookup)
    requires Separated([], bad)
    ensures Scan(bad, offset, lookup) == Meaning([], bad, offset, lookup)
  {
  }

  /** The scanner means what the tokens mean: plain bytes and lone dollars are
      copied, `$${` gives `${`, a reference gives its value verbatim and is never
      scanned again, and the first unset or invalid reference is reported. */
  lemma {:induction false} ScanIsMeaning(ts: seq<Token>, bad: bytes, offset: nat, lookup: Lookup)
    requires Separated(ts, bad)
    ensures Scan(Text(ts, bad), offset, lookup) == Meaning(ts, bad, offset, lookup)
  {
    hide Head, Find, Separated;
    if ts != [] {
      ScanUnfold(Text(ts, bad), offset, lookup);
      hide Scan, Prepend;
      SeparatedStep(ts, bad);
      var next := Text(ts[1..], bad);
      HeadOfToken(ts[0], next, offset, lookup);
      var n := |TokenText(ts[0])|;
      assert (TokenText(ts[0]) + next)[n..] == next;
      ScanIsMeaning(ts[1..], bad, offset + n, lookup);
    } else {
      ScanBad(bad, offset, lookup);
    }
  }

  lemma ExpandIsMeaning(input: bytes, lookup: Lookup)
    ensures var (ts, bad) := Tokens(input);
            && Text(ts, bad) == input && Separated(ts, bad)
            && Expand(input, lookup) == Meaning(ts, bad, 0, lookup)
  {
    TokensCover(input);
    var (ts, bad) := Tokens(input);
    ScanIsMeaning(ts, bad, 0, lookup);
  }

  // ---------------------------------------------------------------- errors

  /** Some `${name}` occurs in the text. */
  ghost predicate Mentions(s: bytes, name: bytes) {
    exists i | 0 <= i <= |s| :: [DOLLAR, OPEN] + name + [CLOSE] <= s[i..]
  }

  ghost predicate Explained(e: EnvError, rest: bytes, offset: nat, lookup: Lookup) {
    match e
    case Malformed(at) => offset <= at <= offset + |rest| && IsBad(rest[at - offset..])
    case Unset(name) => IsName(name) && lookup(name).None? && Mentions(rest, name)
  }

  lemma HeadErrors(rest: bytes, offset: nat, lookup: Lookup)
    requires rest != [] && Head(rest, offset, lookup).Err?
    ensures Explained(Head(rest, offset, lookup).error, rest, offset, lookup)
  {
    assert rest[0..] == rest;
    match Head(rest, offset, lookup).error
    case Malformed(_) =>
    case Unset(name) =>
      assert [DOLLAR, OPEN] + name + [CLOSE] <= rest[0..];
  }

  lemma ExplainedLater(e: EnvError, rest: bytes, length: nat, offset: nat, lookup: Lookup)
    requires length <= |rest| && Explained(e, rest[length..], offset + length, lookup)
    ensures Explained(e, rest, offset, lookup)
  {
    match e
    case Malformed(at) =>
      assert rest[length..][at - (offset + length)..] == rest[at - offset..];
    case Unset(name) =>
      var i :| 0 <= i <= |rest[length..]| && [DOLLAR, OPEN] + name + [CLOSE] <= rest[length..][i..];
      assert rest[length..][i..] == rest[length + i..];
  }

  /** A malformed offset points at a `${` of the input that starts no reference,
      and a name reported as unset is one that the input mentions and the lookup
      lacks. */
  lemma {:induction false} ErrorsPointAtReferences(rest: bytes, offset: nat, lookup: Lookup)
    requires Scan(rest, offset, lookup).Err?
    ensures Explained(Scan(rest, offset, lookup).error, rest, offset, lookup)
    decreases |rest|
  {
    hide Head, Find, Explained;
    match Head(rest, offset, lookup)
    case Err(_) =>
      HeadErrors(rest, offset, lookup);
    case Ok((_, length)) =>
      ErrorsPointAtReferences(rest[length..], offset + length, lookup);
      ExplainedLater(Scan(rest, offset, lookup).error, rest, length, offset, lookup);
  }

  // ---------------------------------------------------------------- quoting

  /** Writes `$${` for every `${`. */
  function Quote(s: bytes): bytes
    decreases |s|
  {
    if s == [] then []
    else if IsReference(s) then [DOLLAR, DOLLAR, OPEN] + Quote(s[2..])
    else [s[0]] + Quote(s[1..])
  }

  lemma QuoteStart(s: bytes)
    ensures IsBrace(Quote(s)) <==> IsBrace(s)
    ensures !IsReference(Quote(s))
  {
    if s != [] && !IsReference(s) && s[1..] != [] {
      assert Quote(s)[1..] == Quote(s[1..]);
    }
  }

  lemma ScanByte(b: byte, rest: bytes, offset: nat, lookup: Lookup)
    requires b == DOLLAR ==> !IsBrace(rest) && !IsReference(rest)
    ensures Scan([b] + rest, offset, lookup) == Prepend([b], Scan(rest, offset + 1, lookup))
  {
    hide Head, Find;
    HeadOfToken(Plain(b), rest, offset, lookup);
    assert ([b] + rest)[1..] == rest;
  }

  lemma ScanEscaped(next: bytes, offset: nat, lookup: Lookup)
    ensures Scan([DOLLAR, DOLLAR, OPEN] + next, offset, lookup) == Prepend([DOLLAR, OPEN], Scan(next, offset + 3, lookup))
  {
    hide Head, Find;
    HeadOfToken(Escaped, next, offset, lookup);
    assert ([DOLLAR, DOLLAR, OPEN] + next)[3..] == next;
  }

  /** A quoted string expands to the original, whatever the environment and
      however many dollars stand before a brace. */
  lemma {:induction false} QuoteRoundTrip(s: bytes, offset: nat, lookup: Lookup)
    ensures Scan(Quote(s), offset, lookup) == Ok(s)
    decreases |s|
  {
    if s == [] {
    } else if IsReference(s) {
      hide Scan;
      ScanEscaped(Quote(s[2..]), offset, lookup);
      QuoteRoundTrip(s[2..], offset + 3, lookup);
      assert s == [DOLLAR, OPEN] + s[2..];
    } else {
      hide Scan;
      QuoteStart(s[1..]);
      ScanByte(s[0], Quote(s[1..]), offset, lookup);
      QuoteRoundTrip(s[1..], offset + 1, lookup);
      assert s == [s[0]] + s[1..];
    }
  }

  lemma ExpandQuote(s: bytes, lookup: Lookup)
    ensures Expand(Quote(s), lookup) == Ok(s)
  {
    QuoteRoundTrip(s, 0, lookup);
  }

  // ---------------------------------------------------------------- composition

  function Shift(r: Expanded, distance: nat): Expanded {
    if r.Err? && r.error.Malformed? then Err(Malformed(r.error.offset + distance)) else r
  }

  lemma HeadShift(s: bytes, offset: nat, distance: nat, lookup: Lookup)
    requires s != []
    ensures var r := Head(s, offset, lookup);
            Head(s, offset + distance, lookup) ==
            if r.Err? && r.error.Malformed? then Err(Malformed(r.error.offset + distance)) else r
  {
  }

  lemma {:induction false} ScanShift(s: bytes, offset: nat, distance: nat, lookup: Lookup)
    ensures Scan(s, offset + distance, lookup) == Shift(Scan(s, offset, lookup), distance)
    decreases |s|
  {
    hide Find;
    if s != [] {
      HeadShift(s, offset, distance, lookup);
      hide Head;
      match Head(s, offset, lookup)
      case Err(_) =>
      case Ok((_, length)) => ScanShift(s[length..], offset + length, distance, lookup);
    }
  }

  predicate EndsInDollar(s: bytes) {
    s != [] && s[|s| - 1] == DOLLAR
  }

  lemma {:induction false} FindExtends(s: bytes, more: bytes, b: byte)
    requires b in s
    ensures Find(s + more, b) == Find(s, b)
  {
    if s[0] != b {
      assert (s + more)[1..] == s[1..] + more;
      FindExtends(s[1..], more, b);
    }
  }

  /** More text behind a token does not change it, unless it is a dollar at the
      very end. */
  lemma HeadExtends(a: bytes, b: bytes, offset: nat, lookup: Lookup)
    requires a != [] && Head(a, offset, lookup).Ok?
    requires a != [DOLLAR] && a != [DOLLAR, DOLLAR]
    ensures Head(a + b, offset, lookup) == Head(a, offset, lookup)
  {
    var all := a + b;
    assert all[..1] == a[..1];
    if IsEscape(a) {
      assert all[..3] == a[..3];
    } else if IsReference(a) {
      assert all[2..] == a[2..] + b;
      FindExtends(a[2..], b, CLOSE);
      var end := Find(a[2..], CLOSE).value;
      assert all[2..2 + end] == a[2..2 + end];
    }
  }

  lemma AppendTail(a: bytes, b: bytes, length: nat)
    requires length <= |a|
    ensures (a + b)[length..] == a[length..] + b
    ensures EndsInDollar(a[length..]) ==> EndsInDollar(a)
    ensures !EndsInDollar(a) ==> a != [DOLLAR] && a != [DOLLAR, DOLLAR]
  {
  }

  /** Expansion is compositional after any text that expands and does not end
      in a dollar. */
  lemma {:induction false} ScanComposes(a: bytes, b: bytes, offset: nat, lookup: Lookup)
    requires Scan(a, offset, lookup).Ok? && !EndsInDollar(a)
    ensures Scan(a + b, offset, lookup) ==
            Prepend(Scan(a, offset, lookup).value, Scan(b, offset + |a|, lookup))
    decreases |a|
  {
    hide Find, Head;
    if a == [] {
      assert a + b == b;
      PrependNothing(Scan(b, offset, lookup));
    } else {
      ScanUnfold(a, offset, lookup);
      ScanUnfold(a + b, offset, lookup);
      hide Scan, EndsInDollar;
      var (text, length) := Head(a, offset, lookup).value;
      AppendTail(a, b, length);
      HeadExtends(a, b, offset, lookup);
      ScanComposes(a[length..], b, offset + length, lookup);
      PrependTwice(text, Scan(a[length..], offset + length, lookup).value, Scan(b, offset + |a|, lookup));
    }
  }

  lemma FinalDollars(offset: nat, lookup: Lookup)
    ensures Scan([DOLLAR], offset, lookup) == Ok([DOLLAR])
    ensures Scan([DOLLAR, OPEN], offset, lookup) == Err(Malformed(offset))
    ensures Scan([DOLLAR, DOLLAR], offset, lookup) == Ok([DOLLAR, DOLLAR])
    ensures Scan([DOLLAR, DOLLAR, OPEN], offset, lookup) == Ok([DOLLAR, OPEN])
    ensures Scan([OPEN], offset, lookup) == Ok([OPEN])
  {
    hide Scan, Head, Find;
    ScanNothing(offset + 1, lookup);
    ScanNothing(offset + 2, lookup);
    assert [DOLLAR] + [] == [DOLLAR] && [OPEN] + [] == [OPEN];
    ScanByte(DOLLAR, [], offset, lookup);
    ScanByte(DOLLAR, [], offset + 1, lookup);
    ScanByte(OPEN, [], offset, lookup);
    assert [DOLLAR] + [DOLLAR] == [DOLLAR, DOLLAR];
    ScanByte(DOLLAR, [DOLLAR], offset, lookup);
    ScanBad([DOLLAR, OPEN], offset, lookup);
    QuoteOfBrace(offset, lookup);
  }

  lemma QuoteOfBrace(offset: nat, lookup: Lookup)
    ensures Scan([DOLLAR, DOLLAR, OPEN], offset, lookup) == Ok([DOLLAR, OPEN])
  {
    assert [DOLLAR, OPEN][2..] == [];
    assert Quote([DOLLAR, OPEN]) == [DOLLAR, DOLLAR, OPEN];
    QuoteRoundTrip([DOLLAR, OPEN], offset, lookup);
  }

  /** After a dollar at the end it is not: a brace shows the difference. */
  lemma {:induction false} DollarBreaksComposition(a: bytes, offset: nat, lookup: Lookup)
    requires Scan(a, offset, lookup).Ok? && EndsInDollar(a)
    ensures Scan(a + [OPEN], offset, lookup) != Ok(Scan(a, offset, lookup).value + [OPEN])
    decreases |a|
  {
    hide Find, Head;
    if a == [DOLLAR] {
      assert a + [OPEN] == [DOLLAR, OPEN];
      FinalDollars(offset, lookup);
    } else if a == [DOLLAR, DOLLAR] {
      assert a + [OPEN] == [DOLLAR, DOLLAR, OPEN];
      FinalDollars(offset, lookup);
    } else {
      ScanUnfold(a, offset, lookup);
      ScanUnfold(a + [OPEN], offset, lookup);
      hide Scan;
      var (text, length) := Head(a, offset, lookup).value;
      HeadExtends(a, [OPEN], offset, lookup);
      HeadConsumesDollar(a, offset, lookup);
      AppendTail(a, [OPEN], length);
      hide EndsInDollar;
      DollarBreaksComposition(a[length..], offset + length, lookup);
      var tail := Scan(a[length..], offset + length, lookup).value;
      var extended := Scan(a[length..] + [OPEN], offset + length, lookup);
      DifferenceKept(text, extended, tail + [OPEN]);
      assert text + tail + [OPEN] == text + (tail + [OPEN]);
    }
  }

  lemma CancelPrefix(text: bytes, x: bytes, y: bytes)
    ensures text + x == text + y ==> x == y
  {
    if text + x == text + y {
      assert x == (text + x)[|text|..];
      assert y == (text + y)[|text|..];
    }
  }

  lemma DifferenceKept(text: bytes, r: Expanded, other: bytes)
    requires r != Ok(other)
    ensures Prepend(text, r) != Ok(text + other)
  {
    if r.Ok? {
      CancelPrefix(text, r.value, other);
    }
  }

  /** A token that is not a lone dollar leaves a final dollar to a later token. */
  lemma HeadConsumesDollar(a: bytes, offset: nat, lookup: Lookup)
    requires EndsInDollar(a) && a != [DOLLAR] && Head(a, offset, lookup).Ok?
    ensures Head(a, offset, lookup).value.1 < |a|
    ensures EndsInDollar(a[Head(a, offset, lookup).value.1..])
  {
  }

  /** The composition law holds for every continuation exactly when the text
      does not end in a dollar. */
  lemma CompositionLaw(a: bytes, lookup: Lookup)
    requires Expand(a, lookup).Ok?
    ensures !EndsInDollar(a) <==>
            forall b :: Expand(a + b, lookup) == Prepend(Expand(a, lookup).value, Shift(Expand(b, lookup), |a|))
  {
    hide Scan;
    if EndsInDollar(a) {
      DollarBreaksComposition(a, 0, lookup);
      FinalDollars(0, lookup);
    } else {
      forall b
        ensures Expand(a + b, lookup) == Prepend(Expand(a, lookup).value, Shift(Expand(b, lookup), |a|))
      {
        ScanComposes(a, b, 0, lookup);
        ScanShift(b, 0, |a|, lookup);
      }
    }
  }
}

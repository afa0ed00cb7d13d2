// Splitting a command line in place (kernel/Shell.cpp, SplitParameters).
// Pointers into the buffer are positions.
module SplitParameters {
  import opened Bytes

  const SPACE: byte := 32
  const QUOTE: byte := 34
  const BACKSLASH: byte := 92

  datatype Scanner = Scanner(buffer: seq<byte>, white: bool, quoted: bool, params: seq<nat>)

  // One round of the loop at position a, which does not hold a NUL.
  function Step(s: Scanner, a: nat, size: nat): (r: Scanner)
    requires a < size <= |s.buffer|
    ensures |r.buffer| == |s.buffer|
  {
    var c := s.buffer[a];
    if c == QUOTE && (a == 0 || s.buffer[a - 1] != BACKSLASH) then
      if s.quoted then Blank(s.(buffer := s.buffer[a := SPACE], quoted := false), a)
      else s.(white := false, quoted := true, params := s.params + [a + 1])
    else if c == BACKSLASH && a + 1 < size && s.buffer[a + 1] == QUOTE then s
    else Blank(s, a)
  }

  // A quotation mark opens or closes unless a backslash stands in front of it.
  lemma MarkTogglesIff(s: Scanner, a: nat, size: nat)
    requires a < size <= |s.buffer|
    ensures Step(s, a, size).quoted != s.quoted <==> s.buffer[a] == 34 && (a == 0 || s.buffer[a - 1] != 92)
  {
  }

  // The end of the loop body.
  function Blank(s: Scanner, a: nat): (r: Scanner)
    requires a < |s.buffer|
    ensures |r.buffer| == |s.buffer|
  {
    if s.white && s.buffer[a] != SPACE then s.(white := false, params := s.params + [a])
    else if !s.white && s.buffer[a] == SPACE && !s.quoted then s.(white := true, buffer := s.buffer[a := 0])
    else s
  }

  function Scan(s: Scanner, a: nat, size: nat): (r: Scanner)
    requires size <= |s.buffer|
    ensures |r.buffer| == |s.buffer|
    decreases size - a
  {
    if a >= size || s.buffer[a] == 0 then s else Scan(Step(s, a, size), a + 1, size)
  }

  method Split(buffer: array<byte>, bufferSize: nat) returns (params: seq<nat>)
    requires bufferSize <= buffer.Length
    modifies buffer
    ensures
      var r := Scan(Scanner(old(buffer[..]), true, false, []), 0, bufferSize);
      params == r.params && buffer[..] == r.buffer
  {
    params := [];
    var isWhitespace, isQuoted := true, false;
    var a := 0;
    ghost var start := Scanner(buffer[..], true, false, []);
    while a < bufferSize
      invariant a <= bufferSize
      invariant Scan(Scanner(buffer[..], isWhitespace, isQuoted, params), a, bufferSize) == Scan(start, 0, bufferSize)
    {
      if buffer[a] == 0 {
        break;
      }
      ghost var s := Scanner(buffer[..], isWhitespace, isQuoted, params);
      var skip := false;
      if buffer[a] == QUOTE {
        if a == 0 || buffer[a - 1] != BACKSLASH {
          isQuoted := !isQuoted;
          if !isQuoted {
            buffer[a] := SPACE;
          } else {
            isWhitespace := false;
            params := params + [a + 1];
            skip := true;
          }
        }
      } else if buffer[a] == BACKSLASH && a + 1 < bufferSize && buffer[a + 1] == QUOTE {
        skip := true;
      }
      if !skip {
        if isWhitespace && buffer[a] != SPACE {
          isWhitespace := false;
          params := params + [a];
        } else if !isWhitespace && buffer[a] == SPACE {
          if !isQuoted {
            isWhitespace := true;
            buffer[a] := 0;
          }
        }
      }
      assert Scanner(buffer[..], isWhitespace, isQuoted, params) == Step(s, a, bufferSize);
      a := a + 1;
    }
  }

  // --- Every line ---

  ghost predicate Increasing(params: seq<nat>) {
    forall i, j :: 0 <= i < j < |params| ==> params[i] < params[j]
  }

  // The state in front of position a: inside quotes nothing counts as white
  // space, and a parameter that starts here has already been opened.
  ghost predicate ScannerOk(s: Scanner, a: nat) {
    && (s.quoted ==> !s.white)
    && Increasing(s.params)
    && (forall p :: p in s.params ==> p <= a && (p == a ==> !s.white))
  }

  // Only spaces and quotation marks are overwritten, and only by NUL.
  ghost predicate OnlyCut(before: seq<byte>, after: seq<byte>) {
    && |after| == |before|
    && forall i :: 0 <= i < |before| ==>
         after[i] == before[i] || (after[i] == 0 && (before[i] == SPACE || before[i] == QUOTE))
  }

  lemma IncreasingPush(params: seq<nat>, x: nat)
    requires Increasing(params) && forall p :: p in params ==> p < x
    ensures Increasing(params + [x])
  {
    forall i | 0 <= i < |params|
      ensures params[i] < x
    {
      assert params[i] in params;
    }
  }

  lemma {:induction false} StepOk(s: Scanner, a: nat, size: nat)
    requires ScannerOk(s, a) && a < size <= |s.buffer|
    ensures ScannerOk(Step(s, a, size), a + 1) && OnlyCut(s.buffer, Step(s, a, size).buffer)
  {
    IncreasingPush(s.params, a + 1);
    if s.white {
      IncreasingPush(s.params, a);
    }
  }

  lemma {:induction false} ScanOk(s: Scanner, a: nat, size: nat)
    requires ScannerOk(s, a) && a <= size <= |s.buffer|
    ensures Increasing(Scan(s, a, size).params) && OnlyCut(s.buffer, Scan(s, a, size).buffer)
    ensures forall p :: p in Scan(s, a, size).params ==> p <= size
    decreases size - a
  {
    if a < size && s.buffer[a] != 0 {
      StepOk(s, a, size);
      ScanOk(Step(s, a, size), a + 1, size);
    }
  }

  lemma {:induction false} SplitOk(buffer: seq<byte>, size: nat)
    requires size <= |buffer|
    ensures
      var r := Scan(Scanner(buffer, true, false, []), 0, size);
      Increasing(r.params) && OnlyCut(buffer, r.buffer) && forall p :: p in r.params ==> p <= size
  {
    ScanOk(Scanner(buffer, true, false, []), 0, size);
  }

  // --- Printed lines ---

  // A word behind some spaces, bare or in quotation marks.
  datatype Token = Token(spaces: nat, text: seq<byte>, quoted: bool)

  // Quotation marks inside a word are escaped by a backslash. A quoted word
  // does not end in one, because it would escape the closing mark.
  ghost predicate Plain(t: Token) {
    && 0 !in t.text && Escaped(t.text)
    && if t.quoted then t.text != [] ==> t.text[|t.text| - 1] != BACKSLASH else t.text != [] && SPACE !in t.text
  }

  ghost predicate Escaped(text: seq<byte>) {
    && (text != [] ==> text[0] != QUOTE)
    && forall i, j :: 0 <= i && j == i + 1 && j < |text| && text[j] == QUOTE ==> text[i] == BACKSLASH
  }

  // A bare word that begins with an escaped quotation mark is read from the
  // mark on; in all other words nothing is lost.
  function Lead(t: Token): nat {
    if !t.quoted && |t.text| > 1 && t.text[0] == BACKSLASH && t.text[1] == QUOTE then 1 else 0
  }

  function Read(t: Token): seq<byte> {
    t.text[Lead(t)..]
  }

  // A bare word needs a space behind it.
  ghost predicate Printable(tokens: seq<Token>, afterBare: bool) {
    tokens != [] ==>
      Plain(tokens[0]) && (afterBare ==> tokens[0].spaces > 0) && Printable(tokens[1..], !tokens[0].quoted)
  }

  function Spaces(n: nat): (r: seq<byte>)
    ensures |r| == n
  {
    seq(n, i => SPACE)
  }

  function Word(t: Token): seq<byte> {
    if t.quoted then [QUOTE] + t.text + [QUOTE] else t.text
  }

  function Line(tokens: seq<Token>): seq<byte> {
    if tokens == [] then [] else Spaces(tokens[0].spaces) + Word(tokens[0]) + Line(tokens[1..])
  }

  // The line after splitting: a NUL behind every word.
  function CutGap(n: nat, afterBare: bool): (r: seq<byte>)
    requires afterBare ==> n > 0
    ensures |r| == n
  {
    if afterBare then [0] + Spaces(n - 1) else Spaces(n)
  }

  function CutWord(t: Token): seq<byte> {
    if t.quoted then [QUOTE] + t.text + [0] else t.text
  }

  ghost function Cut(tokens: seq<Token>, afterBare: bool): seq<byte>
    requires Printable(tokens, afterBare)
  {
    if tokens == [] then []
    else CutGap(tokens[0].spaces, afterBare) + CutWord(tokens[0]) + Cut(tokens[1..], !tokens[0].quoted)
  }

  // Where the words begin.
  function Start(t: Token, from: nat): nat {
    from + t.spaces + Offset(t)
  }

  function Offset(t: Token): nat {
    if t.quoted then 1 else Lead(t)
  }

  function Starts(tokens: seq<Token>, from: nat): (r: seq<nat>)
    ensures |r| == |tokens|
  {
    if tokens == [] then []
    else
      [Start(tokens[0], from)] + Starts(tokens[1..], from + tokens[0].spaces + |Word(tokens[0])|)
  }

  // Rounds that change nothing.
  lemma {:induction false} ScanRun(s: Scanner, a: nat, b: nat, size: nat)
    requires a <= b <= size <= |s.buffer|
    requires forall i :: a <= i < b ==> s.buffer[i] != 0 && Step(s, i, size) == s
    ensures Scan(s, a, size) == Scan(s, b, size)
    decreases b - a
  {
    if a < b {
      ScanRun(s, a + 1, b, size);
    }
  }

  // The buffer holds w at position a.
  ghost predicate Holds(buffer: seq<byte>, a: nat, w: seq<byte>) {
    a + |w| <= |buffer| && buffer[a..a + |w|] == w
  }

  // White space behind white space.
  lemma {:induction false} ScanSpaces(s: Scanner, a: nat, b: nat, size: nat)
    requires a <= b <= size <= |s.buffer| && !s.quoted && s.white
    requires forall i :: a <= i < b ==> s.buffer[i] == SPACE
    ensures Scan(s, a, size) == Scan(s, b, size)
  {
    hide Scan;
    ScanRun(s, a, b, size);
  }

  // The first space behind a bare word.
  lemma {:induction false} ScanCut(s: Scanner, a: nat, size: nat)
    requires a < size <= |s.buffer| && !s.quoted && !s.white && s.buffer[a] == SPACE
    ensures Scan(s, a, size) == Scan(s.(white := true, buffer := s.buffer[a := 0]), a + 1, size)
  {
  }

  lemma GapBuffer(buffer: seq<byte>, a: nat, n: nat, afterBare: bool)
    requires a + n <= |buffer| && Holds(buffer, a, Spaces(n)) && (afterBare ==> n > 0)
    ensures buffer[..a] + CutGap(n, afterBare) + buffer[a + n..] == if afterBare then buffer[a := 0] else buffer
    ensures forall i :: a <= i < a + n ==> buffer[i] == SPACE
  {
    forall i | a <= i < a + n
      ensures buffer[i] == SPACE
    {
      assert buffer[i] == buffer[a..a + n][i - a];
    }
  }

  lemma {:induction false} ScanGap(s: Scanner, a: nat, n: nat, size: nat)
    requires a + n <= size <= |s.buffer| && Holds(s.buffer, a, Spaces(n))
    requires !s.quoted && (!s.white ==> n > 0)
    ensures
      var r := s.(white := true, buffer := s.buffer[..a] + CutGap(n, !s.white) + s.buffer[a + n..]);
      |r.buffer| == |s.buffer| && Scan(s, a, size) == Scan(r, a + n, size)
  {
    hide Scan, Holds, CutGap, Spaces;
    GapBuffer(s.buffer, a, n, !s.white);
    if s.white {
      ScanSpaces(s, a, a + n, size);
    } else {
      ScanCut(s, a, size);
      ScanSpaces(s.(white := true, buffer := s.buffer[a := 0]), a + 1, a + n, size);
    }
  }

  lemma {:induction false} ScanBare(s: Scanner, a: nat, t: Token, size: nat)
    requires a + |t.text| <= size <= |s.buffer| && Holds(s.buffer, a, t.text)
    requires Plain(t) && !t.quoted && s.white && !s.quoted
    requires a + |t.text| < size ==> s.buffer[a + |t.text|] != QUOTE
    ensures Scan(s, a, size) == Scan(s.(white := false, params := s.params + [a + Lead(t)]), a + |t.text|, size)
  {
    hide Scan, Step, Holds, Plain, Lead;
    HeldBytes(s.buffer, a, t);
    var inside := s.(white := false, params := s.params + [a + Lead(t)]);
    OpenBare(s, a, t, size);
    InsideBare(inside, a, t, size);
    ScanRun(inside, a + Lead(t) + 1, a + |t.text|, size);
  }

  lemma HeldBytes(buffer: seq<byte>, a: nat, t: Token)
    requires Holds(buffer, a, t.text) && Plain(t)
    ensures forall i :: a <= i < a + |t.text| ==> buffer[i] == t.text[i - a] && buffer[i] != 0
    ensures Lead(t) <= 1 && (!t.quoted ==> Lead(t) < |t.text|)
  {
    forall i | a <= i < a + |t.text|
      ensures buffer[i] == t.text[i - a] && buffer[i] in t.text
    {
      assert buffer[i] == buffer[a..a + |t.text|][i - a];
    }
  }

  lemma OpenBare(s: Scanner, a: nat, t: Token, size: nat)
    requires a + |t.text| <= size <= |s.buffer| && Plain(t) && !t.quoted && s.white && !s.quoted
    requires forall i :: a <= i < a + |t.text| ==> s.buffer[i] == t.text[i - a] && s.buffer[i] != 0
    requires a + |t.text| < size ==> s.buffer[a + |t.text|] != QUOTE
    ensures Scan(s, a, size) ==
            Scan(s.(white := false, params := s.params + [a + Lead(t)]), a + Lead(t) + 1, size)
  {
    hide Scan;
    assert t.text[0] in t.text && s.buffer[a] == t.text[0];
    ScanStep(s, a, size);
    if Lead(t) == 1 {
      assert s.buffer[a + 1] == t.text[1];
      ScanStep(s, a + 1, size);
    } else if |t.text| > 1 {
      assert s.buffer[a + 1] == t.text[1];
    }
  }

  lemma ScanStep(s: Scanner, a: nat, size: nat)
    requires a < size <= |s.buffer| && s.buffer[a] != 0
    ensures Scan(s, a, size) == Scan(Step(s, a, size), a + 1, size)
  {
  }

  // Behind the first byte of a word, and inside quotation marks, nothing happens.
  lemma InsideBare(s: Scanner, a: nat, t: Token, size: nat)
    requires a + |t.text| <= size <= |s.buffer| && Plain(t) && !t.quoted && !s.white && !s.quoted
    requires forall i :: a <= i < a + |t.text| ==> s.buffer[i] == t.text[i - a]
    ensures forall i :: a < i < a + |t.text| ==> Step(s, i, size) == s
  {
    forall i | a < i < a + |t.text|
      ensures Step(s, i, size) == s
    {
      assert s.buffer[i] in t.text;
      assert s.buffer[i - 1] == t.text[i - a - 1] && s.buffer[i] == t.text[i - a];
    }
  }

  lemma InsideQuoted(s: Scanner, a: nat, t: Token, size: nat)
    requires a + |t.text| <= size <= |s.buffer| && Plain(t) && t.quoted && !s.white && s.quoted
    requires forall i :: a <= i < a + |t.text| ==> s.buffer[i] == t.text[i - a]
    ensures forall i :: a <= i < a + |t.text| ==> Step(s, i, size) == s
  {
    forall i | a <= i < a + |t.text|
      ensures Step(s, i, size) == s
    {
      assert s.buffer[i] == t.text[i - a];
      assert i > a ==> s.buffer[i - 1] == t.text[i - a - 1];
    }
  }

  lemma {:induction false} ScanQuoted(s: Scanner, a: nat, t: Token, size: nat)
    requires a + |t.text| + 2 <= size <= |s.buffer| && Holds(s.buffer, a, Word(t))
    requires Plain(t) && t.quoted && s.white && !s.quoted
    requires a > 0 ==> s.buffer[a - 1] != BACKSLASH
    ensures
      var b := a + 1 + |t.text|;
      Scan(s, a, size) == Scan(s.(buffer := s.buffer[b := 0], params := s.params + [a + 1]), b + 1, size)
  {
    hide Scan, Step, Holds, Plain, Word;
    WordLength(t);
    var b := a + 1 + |t.text|;
    QuotedBytes(s.buffer, a, t);
    var inside := s.(white := false, quoted := true, params := s.params + [a + 1]);
    OpenQuote(s, a, size);
    CloseQuote(inside, b, size);
    ScanStep(s, a, size);
    InsideQuoted(inside, a + 1, t, size);
    ScanRun(inside, a + 1, b, size);
    ScanStep(inside, b, size);
    assert inside.(white := true, quoted := false, buffer := s.buffer[b := 0]) ==
           s.(buffer := s.buffer[b := 0], params := s.params + [a + 1]);
  }

  lemma WordLength(t: Token)
    ensures |Word(t)| == |t.text| + if t.quoted then 2 else 0
  {
  }

  lemma QuotedBytes(buffer: seq<byte>, a: nat, t: Token)
    requires Holds(buffer, a, Word(t)) && Plain(t) && t.quoted
    ensures a + 1 + |t.text| < |buffer| && buffer[a] == QUOTE == buffer[a + 1 + |t.text|]
    ensures buffer[a + |t.text|] != BACKSLASH
    ensures forall i :: a + 1 <= i < a + 1 + |t.text| ==> buffer[i] == t.text[i - (a + 1)] && buffer[i] != 0
  {
    var w := buffer[a..a + |Word(t)|];
    assert buffer[a] == w[0] && buffer[a + |t.text|] == w[|t.text|] && buffer[a + 1 + |t.text|] == w[|t.text| + 1];
    forall i | a + 1 <= i < a + 1 + |t.text|
      ensures buffer[i] == t.text[i - (a + 1)] && buffer[i] in t.text
    {
      assert buffer[i] == w[i - a];
    }
  }

  lemma OpenQuote(s: Scanner, a: nat, size: nat)
    requires a < size <= |s.buffer| && s.buffer[a] == QUOTE && !s.quoted
    requires a > 0 ==> s.buffer[a - 1] != BACKSLASH
    ensures Step(s, a, size) == s.(white := false, quoted := true, params := s.params + [a + 1])
  {
  }

  lemma CloseQuote(s: Scanner, b: nat, size: nat)
    requires 0 < b < size <= |s.buffer| && s.buffer[b] == QUOTE && s.buffer[b - 1] != BACKSLASH && s.quoted && !s.white
    ensures Step(s, b, size) == s.(white := true, quoted := false, buffer := s.buffer[b := 0])
  {
    assert s.buffer[b := SPACE][b := 0] == s.buffer[b := 0];
  }

  // --- Pieces ---

  lemma Middle(p: seq<byte>, m: seq<byte>, q: seq<byte>, n: seq<byte>)
    ensures Holds(p + m + q, |p|, m)
    ensures |n| == |m| ==> (p + m + q)[..|p|] + n + (p + m + q)[|p| + |m|..] == p + n + q
  {
  }

  lemma Regroup(a: seq<byte>, b: seq<byte>, c: seq<byte>, d: seq<byte>, e: seq<byte>)
    ensures a + (b + c + d) + e == a + b + c + d + e == a + b + c + (d + e)
    ensures a + (b + c + d) + e == a + b + (c + (d + e))
  {
  }

  lemma Assoc(a: seq<byte>, b: seq<byte>, c: seq<byte>)
    ensures a + (b + c) == a + b + c
  {
  }

  lemma Pieces(tokens: seq<Token>, afterBare: bool, from: nat)
    requires Printable(tokens, afterBare) && tokens != []
    ensures Plain(tokens[0]) && (afterBare ==> tokens[0].spaces > 0) && Printable(tokens[1..], !tokens[0].quoted)
    ensures Line(tokens) == Spaces(tokens[0].spaces) + Word(tokens[0]) + Line(tokens[1..])
    ensures Cut(tokens, afterBare) ==
            CutGap(tokens[0].spaces, afterBare) + CutWord(tokens[0]) + Cut(tokens[1..], !tokens[0].quoted)
    ensures Starts(tokens, from) ==
            [Start(tokens[0], from)] + Starts(tokens[1..], from + tokens[0].spaces + |Word(tokens[0])|)
    ensures |CutWord(tokens[0])| == |Word(tokens[0])|
  {
  }

  lemma LastOfGap(pre: seq<byte>, n: nat, afterBare: bool)
    requires !afterBare && pre != [] ==> pre[|pre| - 1] != BACKSLASH
    requires afterBare ==> n > 0
    ensures pre + CutGap(n, afterBare) != [] ==> (pre + CutGap(n, afterBare))[|pre| + n - 1] != BACKSLASH
  {
  }

  lemma LastOfWord(before: seq<byte>, t: Token)
    requires Plain(t)
    ensures |before + CutWord(t)| > 0 && (t.quoted ==> (before + CutWord(t))[|before + CutWord(t)| - 1] != BACKSLASH)
  {
  }

  // Behind a bare word there is a space, or the end of the line.
  lemma NoQuoteBehindBare(tokens: seq<Token>, rest: seq<byte>)
    requires Printable(tokens, true) && rest != [] && rest[0] == 0
    ensures Line(tokens) + rest != [] && (Line(tokens) + rest)[0] != QUOTE
  {
  }

  // Closing a quoted word.
  lemma CutQuote(before: seq<byte>, t: Token, more: seq<byte>)
    requires t.quoted
    ensures (before + Word(t) + more)[|before| + 1 + |t.text| := 0] == before + CutWord(t) + more
  {
  }

  // --- The scan over a printed line, piece by piece ---

  lemma {:induction false} ScanGapPiece(pre: seq<byte>, n: nat, more: seq<byte>, white: bool, params: seq<nat>, size: nat)
    requires |pre| + n <= size <= |pre| + n + |more| && (!white ==> n > 0)
    ensures Scan(Scanner(pre + Spaces(n) + more, white, false, params), |pre|, size) ==
            Scan(Scanner(pre + CutGap(n, !white) + more, true, false, params), |pre| + n, size)
  {
    hide Scan, Spaces, CutGap, Holds;
    Middle(pre, Spaces(n), more, CutGap(n, !white));
    ScanGap(Scanner(pre + Spaces(n) + more, white, false, params), |pre|, n, size);
  }

  lemma {:induction false} ScanWordPiece(pre: seq<byte>, t: Token, more: seq<byte>, params: seq<nat>, size: nat)
    requires |pre| + |Word(t)| <= size <= |pre| + |Word(t)| + |more| && Plain(t)
    requires if t.quoted then pre != [] ==> pre[|pre| - 1] != BACKSLASH else more != [] && more[0] != QUOTE
    ensures Scan(Scanner(pre + Word(t) + more, true, false, params), |pre|, size) ==
            Scan(Scanner(pre + CutWord(t) + more, t.quoted, false, params + [|pre| + Offset(t)]),
                 |pre| + |Word(t)|, size)
  {
    hide Scan, Plain, Holds;
    var s := Scanner(pre + Word(t) + more, true, false, params);
    Middle(pre, Word(t), more, Word(t));
    if t.quoted {
      assert pre != [] ==> s.buffer[|pre| - 1] == pre[|pre| - 1];
      ScanQuoted(s, |pre|, t, size);
      CutQuote(pre, t, more);
    } else {
      assert s.buffer[|pre| + |t.text|] == more[0];
      ScanBare(s, |pre|, t, size);
    }
  }

  // Everything up to and including the first word, after splitting.
  function Through(pre: seq<byte>, t: Token, afterBare: bool): (r: seq<byte>)
    requires afterBare ==> t.spaces > 0
    ensures |r| == |pre| + t.spaces + |Word(t)|
  {
    pre + CutGap(t.spaces, afterBare) + CutWord(t)
  }

  lemma {:induction false} ScanFirst(pre: seq<byte>, tokens: seq<Token>, rest: seq<byte>, white: bool,
                                     params: seq<nat>, size: nat)
    requires tokens != [] && Printable(tokens, !white) && rest != [] && rest[0] == 0
    requires |pre| + |Line(tokens)| <= size <= |pre| + |Line(tokens)| + |rest|
    requires white && pre != [] ==> pre[|pre| - 1] != BACKSLASH
    ensures
      var t := tokens[0];
      var after := Through(pre, t, !white);
      && |after| + |Line(tokens[1..])| == |pre| + |Line(tokens)| && after != [] && (t.quoted ==> after[|after| - 1] != BACKSLASH)
      && Scan(Scanner(pre + Line(tokens) + rest, white, false, params), |pre|, size) ==
         Scan(Scanner(after + Line(tokens[1..]) + rest, t.quoted, false, params + [Start(t, |pre|)]), |after|, size)
  {
    hide Scan, Printable, Plain, Line, Cut, Starts, Word, CutWord, CutGap, Spaces;
    var t, line := tokens[0], Line(tokens[1..]);
    Pieces(tokens, !white, |pre|);
    var gap := CutGap(t.spaces, !white);
    LastOfGap(pre, t.spaces, !white);
    LastOfWord(pre + gap, t);
    if !t.quoted {
      NoQuoteBehindBare(tokens[1..], rest);
    }
    Regroup(pre, Spaces(t.spaces), Word(t), line, rest);
    ScanGapPiece(pre, t.spaces, Word(t) + (line + rest), white, params, size);
    Assoc(pre + gap, Word(t), line + rest);
    ScanWordPiece(pre + gap, t, line + rest, params, size);
    Assoc(pre + gap + CutWord(t), line, rest);
  }

  lemma CutFirst(pre: seq<byte>, tokens: seq<Token>, rest: seq<byte>, afterBare: bool)
    requires tokens != [] && Printable(tokens, afterBare)
    ensures Plain(tokens[0]) && (afterBare ==> tokens[0].spaces > 0) && Printable(tokens[1..], !tokens[0].quoted)
    ensures pre + Cut(tokens, afterBare) + rest ==
            Through(pre, tokens[0], afterBare) + Cut(tokens[1..], !tokens[0].quoted) + rest
  {
    hide Printable, Plain, Cut, Starts, Word, CutWord, CutGap, Spaces;
    var t := tokens[0];
    Pieces(tokens, afterBare, |pre|);
    Regroup(pre, CutGap(t.spaces, afterBare), CutWord(t), Cut(tokens[1..], !t.quoted), rest);
  }

  lemma StartsFirst(tokens: seq<Token>, from: nat, params: seq<nat>)
    requires tokens != []
    ensures
      var more := Starts(tokens[1..], from + tokens[0].spaces + |Word(tokens[0])|);
      && params + Starts(tokens, from) == params + [Start(tokens[0], from)] + more
      && Starts(tokens, from)[0] == Start(tokens[0], from)
      && forall i :: 0 < i < |tokens| ==> Starts(tokens, from)[i] == more[i - 1]
  {
    hide Word;
    assert Starts(tokens, from) == [Start(tokens[0], from)] + Starts(tokens[1..], from + tokens[0].spaces + |Word(tokens[0])|);
  }

  lemma ScanNone(pre: seq<byte>, rest: seq<byte>, white: bool, params: seq<nat>, size: nat)
    requires rest != [] && rest[0] == 0 && size <= |pre| + |Line([])| + |rest|
    ensures
      var s := Scanner(pre + Line([]) + rest, white, false, params);
      Scan(s, |pre|, size) == s && pre + Cut([], !white) + rest == s.buffer && params + Starts([], |pre|) == params
  {
    assert pre + Line([]) + rest == pre + rest && pre + Cut([], !white) + rest == pre + rest;
  }

  // A printed line comes apart into its words.
  lemma {:induction false} ScanTokens(pre: seq<byte>, tokens: seq<Token>, rest: seq<byte>, white: bool,
                                      params: seq<nat>, size: nat)
    requires rest != [] && rest[0] == 0 && Printable(tokens, !white)
    requires |pre| + |Line(tokens)| <= size <= |pre| + |Line(tokens)| + |rest|
    requires white && pre != [] ==> pre[|pre| - 1] != BACKSLASH
    ensures
      var r := Scan(Scanner(pre + Line(tokens) + rest, white, false, params), |pre|, size);
      r.buffer == pre + Cut(tokens, !white) + rest && r.params == params + Starts(tokens, |pre|)
    decreases |tokens|
  {
    hide Scan, Line, Cut, Starts, Word, Through, Printable;
    if tokens == [] {
      ScanNone(pre, rest, white, params, size);
    } else {
      var t := tokens[0];
      CutFirst(pre, tokens, rest, !white);
      ScanFirst(pre, tokens, rest, white, params, size);
      ScanTokens(Through(pre, t, !white), tokens[1..], rest, t.quoted, params + [Start(t, |pre|)], size);
      StartsFirst(tokens, |pre|, params);
    }
  }

  // --- Reading the words back ---

  // Behind a bare word there is a NUL: the cut space, or the end of the line.
  lemma NulBehindBare(tokens: seq<Token>, rest: seq<byte>)
    requires Printable(tokens, true) && rest != [] && rest[0] == 0
    ensures (Cut(tokens, true) + rest)[0] == 0
  {
  }

  ghost predicate ReadsAt(buffer: seq<byte>, p: nat, text: seq<byte>) {
    p <= |buffer| && CString(buffer[p..]) == text
  }

  lemma {:induction false} ReadsPiece(before: seq<byte>, t: Token, more: seq<byte>)
    requires Plain(t) && more != [] && more[0] == 0
    ensures ReadsAt(before + (t.text + more), |before| + Lead(t), Read(t))
  {
    hide CString;
    forall i | 0 <= i < |t.text|
      ensures t.text[i] != 0
    {
      assert t.text[i] in t.text;
    }
    assert (before + (t.text + more))[|before| + Lead(t)..] == Read(t) + more;
    CStringOf(Read(t), more);
  }

  lemma {:induction false} ReadsFirst(pre: seq<byte>, t: Token, more: seq<byte>, afterBare: bool)
    requires Plain(t) && (afterBare ==> t.spaces > 0) && (!t.quoted ==> more != [] && more[0] == 0)
    ensures ReadsAt(Through(pre, t, afterBare) + more, Start(t, |pre|), Read(t))
  {
    hide ReadsAt, Spaces, CutGap, Plain;
    var gap := CutGap(t.spaces, afterBare);
    if t.quoted {
      QuotedPieces(pre + gap, t, more);
      ReadsPiece(pre + gap + [QUOTE], t, [0] + more);
    } else {
      Assoc(pre + gap, t.text, more);
      ReadsPiece(pre + gap, t, more);
    }
  }

  lemma QuotedPieces(before: seq<byte>, t: Token, more: seq<byte>)
    requires t.quoted
    ensures before + CutWord(t) + more == before + [QUOTE] + (t.text + ([0] + more))
  {
  }

  lemma {:induction false} ReadsWord(pre: seq<byte>, tokens: seq<Token>, rest: seq<byte>, afterBare: bool, i: nat)
    requires rest != [] && rest[0] == 0 && Printable(tokens, afterBare) && i < |tokens|
    ensures ReadsAt(pre + Cut(tokens, afterBare) + rest, Starts(tokens, |pre|)[i], Read(tokens[i]))
    decreases i
  {
    hide ReadsAt, Cut, Through, Start, Starts, Printable;
    var t := tokens[0];
    CutFirst(pre, tokens, rest, afterBare);
    StartsFirst(tokens, |pre|, []);
    var after, tail := Through(pre, t, afterBare), Cut(tokens[1..], !t.quoted);
    if i == 0 {
      if !t.quoted {
        NulBehindBare(tokens[1..], rest);
      }
      Assoc(after, tail, rest);
      ReadsFirst(pre, t, tail + rest, afterBare);
    } else {
      ReadsWord(after, tokens[1..], rest, !t.quoted, i - 1);
    }
  }

  // A quoted word with a space in it, and a bare one with an escaped mark.
  lemma ExampleWords()
    ensures Word(Token(1, [97, 32, 98], true)) == [34, 97, 32, 98, 34] && Spaces(1) == [32]
    ensures Word(Token(1, [92, 34, 99], false)) == [92, 34, 99] && Read(Token(1, [92, 34, 99], false)) == [34, 99]
    ensures Plain(Token(1, [97, 32, 98], true)) && Plain(Token(1, [92, 34, 99], false))
  {
  }

  // Splitting undoes printing: every pointer reads as the text of its word.
  lemma {:induction false} SplitUndoesPrinting(tokens: seq<Token>, rest: seq<byte>, size: nat)
    requires Printable(tokens, false) && rest != [] && rest[0] == 0
    requires |Line(tokens)| <= size <= |Line(tokens) + rest|
    ensures
      var r := Scan(Scanner(Line(tokens) + rest, true, false, []), 0, size);
      && |r.params| == |tokens| && Increasing(r.params)
      && forall i :: 0 <= i < |tokens| ==> ReadsAt(r.buffer, r.params[i], Read(tokens[i]))
  {
    hide Scan, ReadsAt, Printable, Starts, Line, Cut;
    var none: seq<byte> := [];
    var r := Scan(Scanner(Line(tokens) + rest, true, false, []), 0, size);
    SplitOk(Line(tokens) + rest, size);
    assert none + Line(tokens) + rest == Line(tokens) + rest;
    ScanTokens(none, tokens, rest, true, [], size);
    assert r.params == Starts(tokens, 0);
    forall i | 0 <= i < |tokens|
      ensures ReadsAt(r.buffer, r.params[i], Read(tokens[i]))
    {
      ReadsWord(none, tokens, rest, false, i);
    }
  }
}

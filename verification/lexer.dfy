/**
 The lexer of lexer.cpp: a cursor over the input text with the `m_line` and
 `m_col` counters, the sticky `m_eof` flag and a one-token lookahead buffer.
 Every operation is a pure function from one lexer state to the next.
 */
module Lexer {
  import opened Options
  import opened Syntax
  import opened Errors

  // Character classes, for the ASCII "C" locale.

  predicate IsSpace(c: char) {
    c == ' ' || c == '\t' || c == '\n' || c == '\U{B}' || c == '\U{C}' || c == '\r'
  }

  predicate IsAlpha(c: char) {
    ('a' <= c <= 'z') || ('A' <= c <= 'Z')
  }

  predicate IsDigit(c: char) {
    '0' <= c <= '9'
  }

  /** The two predicates `read_continued_token` is called with. */
  datatype CharClass = Alpha | Digit

  predicate InClass(cls: CharClass, c: char) {
    match cls
    case Alpha => IsAlpha(c)
    case Digit => IsDigit(c)
  }

  predicate AllIn(cls: CharClass, s: string) {
    forall k :: 0 <= k < |s| ==> InClass(cls, s[k])
  }

  /** The kind of a single-character operator token, if `c` is one. */
  function OperatorKind(c: char): (r: Option<TokenKind>)
    ensures r.Some? ==> IsArithmetic(r.value)
  {
    if c == '+' then Some(Plus)
    else if c == '-' then Some(Minus)
    else if c == '*' then Some(Times)
    else if c == '/' then Some(Divide)
    else None
  }

  /** The index of the first non-whitespace character at or after `i`. */
  function FirstNonSpace(s: string, i: nat): (j: nat)
    requires i <= |s|
    ensures i <= j <= |s|
    ensures forall k :: i <= k < j ==> IsSpace(s[k])
    ensures j < |s| ==> !IsSpace(s[j])
    decreases |s| - i
  {
    if i < |s| && IsSpace(s[i]) then FirstNonSpace(s, i + 1) else i
  }

  /** The end of the maximal run of `cls` characters starting at `i`. */
  function RunEnd(cls: CharClass, s: string, i: nat): (j: nat)
    requires i <= |s|
    ensures i <= j <= |s|
    ensures AllIn(cls, s[i..j])
    ensures j < |s| ==> !InClass(cls, s[j])
    decreases |s| - i
  {
    if i < |s| && InClass(cls, s[i]) then
      var j := RunEnd(cls, s, i + 1);
      assert s[i..j] == [s[i]] + s[i + 1..j];
      j
    else i
  }

  /** The counters after `read` has been called on each character of `text`
      in turn, starting from `(line, col)`: a newline moves to column 1 of the
      next line, any other character one column on. */
  function Advance(line: int, col: int, text: string): (int, int)
    decreases |text|
  {
    if |text| == 0 then (line, col)
    else
      var (l, c) := Advance(line, col, text[..|text| - 1]);
      if text[|text| - 1] == '\n' then (l + 1, 1) else (l, c + 1)
  }

  /** Reading `a` and then `b` moves the counters as reading `a + b` does. */
  lemma {:induction false} AdvanceAppend(line: int, col: int, a: string, b: string)
    ensures Advance(line, col, a + b) == (var (l, c) := Advance(line, col, a); Advance(l, c, b))
    decreases |b|
  {
    if b == [] {
      assert a + b == a;
    } else {
      var b0 := b[..|b| - 1];
      assert (a + b)[..|a + b| - 1] == a + b0;
      assert (a + b)[|a + b| - 1] == b[|b| - 1];
      AdvanceAppend(line, col, a, b0);
    }
  }

  /** A scan that stops at index `p` pushes the character there back, and
      the counters as written have counted it: they are one character ahead
      of the position. With the counters rolled back, or at the end of input,
      they are not. */
  predicate PushedBack(s: string, p: nat, rollsBack: bool) {
    !rollsBack && p < |s|
  }

  /** The physical line and column of index `i` of `s`: lines and columns
      count from 1, and a newline starts a new line at column 1. */
  function LineCol(s: string, i: nat): (int, int)
    requires i <= |s|
    decreases i
  {
    if i == 0 then (1, 1)
    else
      var (l, c) := LineCol(s, i - 1);
      if s[i - 1] == '\n' then (l + 1, 1) else (l, c + 1)
  }

  /** The lexer's fields. `rollsBack` selects how pushing back a character
      treats the counters: `false` is `unread` as written, which leaves them
      advanced; `true` restores them, which is what the counters are for. */
  datatype LexState = LexState(
    input: string,
    pos: nat,
    line: int,
    col: int,
    eof: bool,
    buffered: Option<Token>,
    rollsBack: bool)

  /** `m_eof` is only ever set once the whole input has been read. */
  predicate Valid(lx: LexState) {
    lx.pos <= |lx.input| && (lx.eof ==> lx.pos == |lx.input|)
  }

  /** The counters hold the physical position of the next unread character. */
  predicate Counted(lx: LexState) {
    lx.pos <= |lx.input| && (lx.line, lx.col) == LineCol(lx.input, lx.pos)
  }

  /** The counters of `b` are those of `a` moved over `text`. */
  predicate MovedOver(a: LexState, b: LexState, text: string) {
    (b.line, b.col) == Advance(a.line, a.col, text)
  }
  /** The counters of `b` are those of `a` moved over `s[i..p]`, and over
      `s[p]` as well when `ahead`. */
  predicate MovedTo(a: LexState, b: LexState, s: string, i: nat, p: nat, ahead: bool)
    requires i <= p <= |s| && (ahead ==> p < |s|)
  {
    if ahead then MovedOver(a, b, s[i..p + 1]) else MovedOver(a, b, s[i..p])
  }


  /** Physical positions are the counters moved over the text before them
      from line 1, column 1. */
  lemma {:induction false} LineColAdvance(s: string, i: nat)
    requires i <= |s|
    ensures LineCol(s, i) == Advance(1, 1, s[..i])
    decreases i
  {
    if i > 0 {
      assert s[..i][..i - 1] == s[..i - 1];
      LineColAdvance(s, i - 1);
    }
  }

  /** The constructor: line 1, column 1, nothing read, nothing buffered. */
  function Init(input: string): (lx: LexState)
    ensures Valid(lx) && Counted(lx) && lx.rollsBack
  {
    LexState(input, 0, 1, 1, false, None, true)
  }

  /** The same constructor for the lexer with `unread` as written. */
  function InitAsWritten(input: string): (lx: LexState)
    ensures Valid(lx) && Counted(lx) && !lx.rollsBack
  {
    LexState(input, 0, 1, 1, false, None, false)
  }

  /** Everything a step leaves alone. */
  predicate SameSource(a: LexState, b: LexState) {
    a.input == b.input && a.buffered == b.buffered && a.rollsBack == b.rollsBack
  }

  datatype ReadResult = ReadResult(c: Option<char>, rest: LexState)

  /** `read`: the next character and the counters after it, or end of input,
      which sets the sticky eof flag. */
  function Read(lx: LexState): (r: ReadResult)
    requires Valid(lx)
    ensures Valid(r.rest) && SameSource(lx, r.rest)
    ensures lx.pos < |lx.input| ==>
      r.c == Some(lx.input[lx.pos]) && r.rest.pos == lx.pos + 1 && r.rest.eof == lx.eof
    ensures lx.pos == |lx.input| ==>
      r.c.None? && r.rest == lx.(eof := true)
    ensures r.c.Some? ==> MovedOver(lx, r.rest, [r.c.value])
    ensures Counted(lx) ==> Counted(r.rest)
  {
    if lx.eof then ReadResult(None, lx)
    else if lx.pos == |lx.input| then ReadResult(None, lx.(eof := true))
    else
      var c := lx.input[lx.pos];
      if c == '\n' then ReadResult(Some(c), lx.(pos := lx.pos + 1, line := lx.line + 1, col := 1))
      else ReadResult(Some(c), lx.(pos := lx.pos + 1, col := lx.col + 1))
  }

  /** `unread`: push back the character `read` just returned, going from
      `after` back to the position of `before`. The character is read again
      next. Corrected, the counters return to where they were, and re-reading
      is the first read over again; as written, they stay moved over the
      character, so they no longer give the physical position. */
  function Unread(before: LexState, after: LexState): (r: LexState)
    requires Valid(before) && before.pos < |before.input| && after == Read(before).rest
    ensures Valid(r) && SameSource(before, r) && r.pos == before.pos
    ensures Read(r).c == Some(before.input[before.pos]) && Read(r).rest.pos == after.pos
    ensures before.rollsBack ==> MovedOver(before, r, []) && Read(r).rest == after
    ensures before.rollsBack && Counted(before) ==> Counted(r)
    ensures !before.rollsBack ==> MovedOver(before, r, [before.input[before.pos]])
    ensures !before.rollsBack && Counted(before) ==> !Counted(r)
  {
    if before.rollsBack then before else after.(pos := before.pos)
  }

  datatype Skipped = Skipped(c: Option<char>, line: int, col: int, rest: LexState)

  /** The whitespace loop of `read_token`: the first non-whitespace character
      (or end of input), and the counters as they were just before it was read. */
  function SkipSpace(lx: LexState): (r: Skipped)
    requires Valid(lx)
    ensures var j := FirstNonSpace(lx.input, lx.pos);
      && Valid(r.rest) && SameSource(lx, r.rest)
      && (j < |lx.input| ==> r.c == Some(lx.input[j]) && r.rest.pos == j + 1 && !r.rest.eof)
      && (j == |lx.input| ==> r.c.None? && r.rest.pos == j && r.rest.eof)
      && (Counted(lx) ==> Counted(r.rest) && (r.line, r.col) == LineCol(lx.input, j))
    ensures lx.pos <= r.rest.pos && (r.c.Some? ==> Found(r))
    decreases |lx.input| - lx.pos
  {
    var rd := Read(lx);
    if rd.c.None? || !IsSpace(rd.c.value) then Skipped(rd.c, lx.line, lx.col, rd.rest)
    else SkipSpace(rd.rest)
  }

  /** Whichever way `unread` treats the counters, the skip loop returns the
      counters moved over the whitespace it skipped. */
  lemma {:induction false} SkipSpaceMoves(lx: LexState)
    requires Valid(lx)
    ensures var r := SkipSpace(lx);
      (r.line, r.col) == Advance(lx.line, lx.col, lx.input[lx.pos..FirstNonSpace(lx.input, lx.pos)])
    decreases |lx.input| - lx.pos
  {
    var rd := Read(lx);
    if rd.c.Some? && IsSpace(rd.c.value) {
      SkipSpaceMoves(rd.rest);
      SkipMoves(lx, rd.rest, FirstNonSpace(lx.input, lx.pos));
    }
  }

  /** It leaves them moved over everything it read. */
  lemma {:induction false} SkipSpaceReads(lx: LexState)
    requires Valid(lx)
    ensures MovedOver(lx, SkipSpace(lx).rest, lx.input[lx.pos..SkipSpace(lx).rest.pos])
    decreases |lx.input| - lx.pos
  {
    var rd := Read(lx);
    if rd.c.Some? && IsSpace(rd.c.value) {
      SkipSpaceReads(rd.rest);
      SkipMoves(lx, rd.rest, SkipSpace(rd.rest).rest.pos);
    } else if rd.c.Some? {
      assert lx.input[lx.pos..lx.pos + 1] == [rd.c.value];
    }
  }

  /** Moving over one character and then over what follows it. */
  lemma {:induction false} SkipMoves(lx: LexState, l1: LexState, p: nat)
    requires lx.pos < |lx.input| && l1.input == lx.input && l1.pos == lx.pos + 1
    requires MovedOver(lx, l1, [lx.input[lx.pos]])
    requires lx.pos < p <= |lx.input|
    ensures Advance(lx.line, lx.col, lx.input[lx.pos..p]) == Advance(l1.line, l1.col, lx.input[lx.pos + 1..p])
  {
    var c := [lx.input[lx.pos]];
    assert lx.input[lx.pos..p] == c + lx.input[lx.pos + 1..p];
    AdvanceAppend(lx.line, lx.col, c, lx.input[lx.pos + 1..p]);
  }

  /** Moving from `a` to `b` over `s[i..m]` and from `b` to `c` over
      `s[m..e]` is moving from `a` to `c` over `s[i..e]`. */
  lemma {:induction false} ChainMoves(a: LexState, b: LexState, c: LexState, s: string, i: nat, m: nat, e: nat)
    requires i <= m <= e <= |s|
    requires MovedOver(a, b, s[i..m]) && MovedOver(b, c, s[m..e])
    ensures MovedOver(a, c, s[i..e])
  {
    assert s[i..e] == s[i..m] + s[m..e];
    AdvanceAppend(a.line, a.col, s[i..m], s[m..e]);
  }

  datatype Lexed = Lexed(tok: Token, rest: LexState)

  /** `read_continued_token`: extend `lexeme` by the maximal run of `cls`
      characters; the character that ends the run is pushed back. */
  function ReadContinued(kind: TokenKind, cls: CharClass, lexeme: string, line: int, col: int, lx: LexState): (r: Lexed)
    requires Valid(lx)
    ensures Valid(r.rest) && SameSource(lx, r.rest)
    ensures lx.pos <= r.rest.pos <= |lx.input|
    ensures r.tok == Token(kind, lexeme + lx.input[lx.pos..r.rest.pos], line, col)
    ensures AllIn(cls, lx.input[lx.pos..r.rest.pos])
    ensures r.rest.pos < |lx.input| ==> !InClass(cls, lx.input[r.rest.pos])
    ensures r.rest.eof <==> r.rest.pos == |lx.input|
    ensures lx.rollsBack && Counted(lx) ==> Counted(r.rest)
    decreases |lx.input| - lx.pos
  {
    var rd := Read(lx);
    if rd.c.Some? && InClass(cls, rd.c.value) then
      var r := ReadContinued(kind, cls, lexeme + [rd.c.value], line, col, rd.rest);
      Extend(cls, lexeme, lx.input, lx.pos, r.rest.pos);
      r
    else if rd.c.Some? then
      Lexed(Token(kind, lexeme, line, col), Unread(lx, rd.rest))
    else
      Lexed(Token(kind, lexeme, line, col), rd.rest)
  }

  /** Whichever way `unread` treats the counters, they move over the run, and
      as written once more over the character that ends it. */
  lemma {:induction false} ReadContinuedMoves(kind: TokenKind, cls: CharClass, lexeme: string, line: int, col: int, lx: LexState)
    requires Valid(lx)
    ensures var r := ReadContinued(kind, cls, lexeme, line, col, lx);
      MovedTo(lx, r.rest, lx.input, lx.pos, r.rest.pos, PushedBack(lx.input, r.rest.pos, lx.rollsBack))
    decreases |lx.input| - lx.pos
  {
    if lx.pos < |lx.input| && InClass(cls, lx.input[lx.pos]) {
      var l1 := Read(lx).rest;
      var more := lexeme + [lx.input[lx.pos]];
      ReadContinuedStep(kind, cls, lexeme, line, col, lx);
      ReadContinuedMoves(kind, cls, more, line, col, l1);
      ReadOneMoves(lx);
      var r := ReadContinued(kind, cls, more, line, col, l1);
      if PushedBack(lx.input, r.rest.pos, lx.rollsBack) {
        ChainMoves(lx, l1, r.rest, lx.input, lx.pos, lx.pos + 1, r.rest.pos + 1);
      } else {
        ChainMoves(lx, l1, r.rest, lx.input, lx.pos, lx.pos + 1, r.rest.pos);
      }
    } else {
      ReadContinuedStops(kind, cls, lexeme, line, col, lx);
    }
  }

  /** A character of the class extends the lexeme and the scan goes on. */
  lemma {:induction false} ReadContinuedStep(kind: TokenKind, cls: CharClass, lexeme: string, line: int, col: int, lx: LexState)
    requires Valid(lx) && lx.pos < |lx.input| && InClass(cls, lx.input[lx.pos])
    ensures ReadContinued(kind, cls, lexeme, line, col, lx)
      == ReadContinued(kind, cls, lexeme + [lx.input[lx.pos]], line, col, Read(lx).rest)
  {
  }

  /** Any other character, or the end, ends the scan where it began. */
  lemma {:induction false} ReadContinuedStops(kind: TokenKind, cls: CharClass, lexeme: string, line: int, col: int, lx: LexState)
    requires Valid(lx) && !(lx.pos < |lx.input| && InClass(cls, lx.input[lx.pos]))
    ensures var r := ReadContinued(kind, cls, lexeme, line, col, lx);
      MovedTo(lx, r.rest, lx.input, lx.pos, r.rest.pos, PushedBack(lx.input, r.rest.pos, lx.rollsBack))
  {
    var r := ReadContinued(kind, cls, lexeme, line, col, lx);
    assert r.rest.pos == lx.pos;
    if !lx.rollsBack && lx.pos < |lx.input| {
      assert lx.input[lx.pos..lx.pos + 1] == [lx.input[lx.pos]];
    } else {
      assert lx.input[lx.pos..lx.pos] == [];
    }
  }

  /** Reading one character moves the counters over it. */
  lemma {:induction false} ReadOneMoves(lx: LexState)
    requires Valid(lx) && lx.pos < |lx.input|
    ensures MovedOver(lx, Read(lx).rest, lx.input[lx.pos..lx.pos + 1])
  {
    assert lx.input[lx.pos..lx.pos + 1] == [lx.input[lx.pos]];
  }

  /** Extending a lexeme by the character at `i`, then by the run after it,
      is extending it by the whole run. */
  lemma {:induction false} Extend(cls: CharClass, lexeme: string, s: string, i: nat, e: nat)
    requires i < e <= |s| && InClass(cls, s[i]) && AllIn(cls, s[i + 1..e])
    ensures (lexeme + [s[i]]) + s[i + 1..e] == lexeme + s[i..e]
    ensures [s[i]] + s[i + 1..e] == s[i..e]
    ensures AllIn(cls, s[i..e])
  {
    assert s[i..e] == [s[i]] + s[i + 1..e];
    forall k | 0 <= k < e - i ensures InClass(cls, s[i..e][k]) {
      if k > 0 { assert s[i..e][k] == s[i + 1..e][k - 1]; }
    }
  }

  datatype Step = Step(tok: Option<Token>, rest: LexState)

  /** The token `step` holds was scanned by maximal munch of `cls` from index `j`. */
  predicate MaximalRun(kind: TokenKind, cls: CharClass, s: string, j: nat, step: Step) {
    && step.tok.Some?
    && step.tok.value.kind == kind
    && j < step.rest.pos <= |s|
    && step.tok.value.lexeme == s[j..step.rest.pos]
    && AllIn(cls, step.tok.value.lexeme)
    && (step.rest.pos < |s| ==> !InClass(cls, s[step.rest.pos]))
  }

  /** The token a scan from index `j` must produce: by maximal munch for a
      letter or a digit, one character for an operator, an error otherwise. */
  predicate ScansAs(s: string, j: nat, r: Result<Step>)
    requires j < |s|
  {
    if IsAlpha(s[j]) then
      r.Ok? && MaximalRun(Identifier, Alpha, s, j, r.value)
    else if IsDigit(s[j]) then
      r.Ok? && MaximalRun(IntegerLiteral, Digit, s, j, r.value)
    else if OperatorKind(s[j]).Some? then
      && r.Ok? && r.value.tok.Some?
      && r.value.tok.value.kind == OperatorKind(s[j]).value
      && r.value.tok.value.lexeme == [s[j]]
      && r.value.rest.pos == j + 1
    else
      r.Err? && r.error.UnrecognizedCharacter? && r.error.ch == s[j]
  }

  /** The skip loop stopped on a character: the one just before `rest`. */
  predicate Found(sk: Skipped) {
    && Valid(sk.rest) && 0 < sk.rest.pos && !sk.rest.eof
    && sk.c == Some(sk.rest.input[sk.rest.pos - 1])
  }

  /** The classification step of `read_token`, once whitespace is skipped. */
  function Classify(sk: Skipped): (r: Result<Step>)
    requires Found(sk)
    ensures r.Ok? ==> Valid(r.value.rest) && SameSource(sk.rest, r.value.rest)
    ensures ScansAs(sk.rest.input, sk.rest.pos - 1, r)
    ensures r.Ok? ==> r.value.tok.Some? && r.value.rest.pos >= sk.rest.pos
    ensures r.Ok? ==> r.value.tok.value.line == sk.line && r.value.tok.value.col == sk.col
    ensures r.Err? ==> r.error.line == sk.line
    ensures sk.rest.rollsBack && Counted(sk.rest) && r.Ok? ==> Counted(r.value.rest)
  {
    var c := sk.c.value;
    if IsAlpha(c) then
      var t := ReadContinued(Identifier, Alpha, [c], sk.line, sk.col, sk.rest);
      Extend(Alpha, [], sk.rest.input, sk.rest.pos - 1, t.rest.pos);
      Ok(Step(Some(t.tok), t.rest))
    else if IsDigit(c) then
      var t := ReadContinued(IntegerLiteral, Digit, [c], sk.line, sk.col, sk.rest);
      Extend(Digit, [], sk.rest.input, sk.rest.pos - 1, t.rest.pos);
      Ok(Step(Some(t.tok), t.rest))
    else if OperatorKind(c).Some? then
      Ok(Step(Some(Token(OperatorKind(c).value, [c], sk.line, sk.col)), sk.rest))
    else
      Err(UnrecognizedCharacter(sk.line, c))
  }

  /** Whichever way `unread` treats the counters, they move over the token,
      and as written once more over the character ending an identifier or a
      literal. */
  lemma {:induction false} ClassifyMoves(sk: Skipped)
    requires Found(sk)
    ensures var r := Classify(sk);
      r.Ok? ==> MovedTo(sk.rest, r.value.rest, sk.rest.input, sk.rest.pos, r.value.rest.pos, Recounted(sk.rest.input, r.value))
  {
    var c := sk.c.value;
    if IsAlpha(c) {
      ReadContinuedMoves(Identifier, Alpha, [c], sk.line, sk.col, sk.rest);
    } else if IsDigit(c) {
      ReadContinuedMoves(IntegerLiteral, Digit, [c], sk.line, sk.col, sk.rest);
    } else {
      assert sk.rest.input[sk.rest.pos..sk.rest.pos] == [];
    }
  }

  /** After a scan, the counters as written are one character ahead of the
      position when an identifier or a literal ended before the end of input:
      the character that ended it was pushed back. */
  predicate Recounted(s: string, step: Step) {
    step.tok.Some? && IsOperand(step.tok.value.kind) && PushedBack(s, step.rest.pos, step.rest.rollsBack)
  }

  /** `read_token`: skip whitespace, then classify by the first character. */
  function ReadToken(lx: LexState): (r: Result<Step>)
    requires Valid(lx)
    ensures r.Ok? ==> Valid(r.value.rest) && SameSource(lx, r.value.rest)
    ensures var j := FirstNonSpace(lx.input, lx.pos);
      j == |lx.input| ==> r.Ok? && r.value.tok.None? && r.value.rest.pos == j && r.value.rest.eof
    ensures var j := FirstNonSpace(lx.input, lx.pos);
      j < |lx.input| ==> ScansAs(lx.input, j, r)
    ensures r.Ok? && r.value.tok.Some? ==> r.value.rest.pos > lx.pos
    ensures lx.rollsBack && Counted(lx) ==>
      var j := FirstNonSpace(lx.input, lx.pos);
      && (r.Ok? ==> Counted(r.value.rest))
      && (r.Ok? && r.value.tok.Some? ==> (r.value.tok.value.line, r.value.tok.value.col) == LineCol(lx.input, j))
      && (r.Err? ==> r.error.line == LineCol(lx.input, j).0)
  {
    var sk := SkipSpace(lx);
    if sk.c.None? then Ok(Step(None, sk.rest))
    else Classify(sk)
  }

  /** Whichever way `unread` treats the counters, `read_token` reports a
      token or an error at the counters as they stood after reading everything
      before the token's first character. */
  lemma {:induction false} ReadTokenPosition(lx: LexState)
    requires Valid(lx)
    ensures var r := ReadToken(lx); var j := FirstNonSpace(lx.input, lx.pos);
      && (r.Ok? && r.value.tok.Some? ==>
            (r.value.tok.value.line, r.value.tok.value.col) == Advance(lx.line, lx.col, lx.input[lx.pos..j]))
      && (r.Err? ==> r.error.line == Advance(lx.line, lx.col, lx.input[lx.pos..j]).0)
  {
    var sk := SkipSpace(lx);
    SkipSpaceMoves(lx);
    assert ReadToken(lx) == if sk.c.None? then Ok(Step(None, sk.rest)) else Classify(sk);
  }

  /** Whichever way `unread` treats the counters, `read_token` leaves them as
      if each character it consumed had been read once, plus once more the
      character pushed back after an identifier or a literal when the counters
      are not rolled back. */
  lemma {:induction false} ReadTokenMoves(lx: LexState)
    requires Valid(lx)
    ensures var r := ReadToken(lx);
      r.Ok? ==> MovedTo(lx, r.value.rest, lx.input, lx.pos, r.value.rest.pos, Recounted(lx.input, r.value))
  {
    if SkipSpace(lx).c.None? {
      NoTokenMoves(lx);
    } else {
      TokenMoves(lx);
    }
  }

  lemma {:induction false} NoTokenMoves(lx: LexState)
    requires Valid(lx) && SkipSpace(lx).c.None?
    ensures var r := ReadToken(lx);
      r.Ok? ==> MovedTo(lx, r.value.rest, lx.input, lx.pos, r.value.rest.pos, Recounted(lx.input, r.value))
  {
    SkipSpaceReads(lx);
    ReadTokenSkips(lx);
  }

  lemma {:induction false} TokenMoves(lx: LexState)
    requires Valid(lx) && SkipSpace(lx).c.Some?
    ensures var r := ReadToken(lx);
      r.Ok? ==> MovedTo(lx, r.value.rest, lx.input, lx.pos, r.value.rest.pos, Recounted(lx.input, r.value))
  {
    ClassifyFromStart(lx);
    ReadTokenClassifies(lx);
  }

  /** Only whitespace left: `read_token` hands out no token. */
  lemma {:induction false} ReadTokenSkips(lx: LexState)
    requires Valid(lx) && SkipSpace(lx).c.None?
    ensures ReadToken(lx) == Ok(Step(None, SkipSpace(lx).rest))
  {
  }

  /** Otherwise it classifies the first character after the whitespace. */
  lemma {:induction false} ReadTokenClassifies(lx: LexState)
    requires Valid(lx) && SkipSpace(lx).c.Some?
    ensures ReadToken(lx) == Classify(SkipSpace(lx))
  {
  }

  /** The counters after skipping whitespace and classifying, from `lx`. */
  lemma {:induction false} ClassifyFromStart(lx: LexState)
    requires Valid(lx) && SkipSpace(lx).c.Some?
    ensures var r := Classify(SkipSpace(lx));
      r.Ok? ==> MovedTo(lx, r.value.rest, lx.input, lx.pos, r.value.rest.pos, Recounted(lx.input, r.value))
  {
    SkipSpaceReads(lx);
    ClassifyChains(SkipSpace(lx), lx);
  }

  /** Counters moved from `from` up to the classified character go on
      moving over the token. */
  lemma {:induction false} ClassifyChains(sk: Skipped, from: LexState)
    requires Found(sk) && from.input == sk.rest.input && from.pos <= sk.rest.pos
    requires MovedOver(from, sk.rest, from.input[from.pos..sk.rest.pos])
    ensures var r := Classify(sk);
      r.Ok? ==> MovedTo(from, r.value.rest, from.input, from.pos, r.value.rest.pos, Recounted(from.input, r.value))
  {
    ClassifyMoves(sk);
    var r := Classify(sk);
    if r.Ok? {
      ClassifiedMoves(from, sk, r.value);
    }
  }

  lemma {:induction false} ClassifiedMoves(lx: LexState, sk: Skipped, step: Step)
    requires lx.input == sk.rest.input && step.rest.input == lx.input
    requires lx.pos <= sk.rest.pos <= step.rest.pos <= |lx.input|
    requires Recounted(lx.input, step) ==> step.rest.pos < |lx.input|
    requires MovedOver(lx, sk.rest, lx.input[lx.pos..sk.rest.pos])
    requires MovedTo(sk.rest, step.rest, lx.input, sk.rest.pos, step.rest.pos, Recounted(lx.input, step))
    ensures MovedTo(lx, step.rest, lx.input, lx.pos, step.rest.pos, Recounted(lx.input, step))
  {
    if Recounted(lx.input, step) {
      ChainMoves(lx, sk.rest, step.rest, lx.input, lx.pos, sk.rest.pos, step.rest.pos + 1);
    } else {
      ChainMoves(lx, sk.rest, step.rest, lx.input, lx.pos, sk.rest.pos, step.rest.pos);
    }
  }

  /** A measure that every token handed out decreases. */
  function Remaining(lx: LexState): nat
    requires Valid(lx)
  {
    2 * (|lx.input| - lx.pos) + (if lx.eof then 0 else 1) + (if lx.buffered.Some? then 2 else 0)
  }

  /** `fill`: scan one token into the empty buffer unless end of input was seen. */
  function Fill(lx: LexState): (r: Result<LexState>)
    requires Valid(lx)
    ensures r.Ok? ==> Valid(r.value) && r.value.input == lx.input && r.value.rollsBack == lx.rollsBack
    ensures lx.buffered.Some? || lx.eof ==> r == Ok(lx)
    ensures lx.buffered.None? && !lx.eof ==>
      && (r.Ok? <==> ReadToken(lx).Ok?)
      && (r.Err? ==> r.error == ReadToken(lx).error)
      && (r.Ok? ==> r.value.buffered == ReadToken(lx).value.tok && r.value.pos == ReadToken(lx).value.rest.pos)
  {
    if !lx.eof && lx.buffered.None? then
      var step :- ReadToken(lx);
      Ok(step.rest.(buffered := step.tok))
    else Ok(lx)
  }

  /** `next`: the buffered token (scanning one first if the buffer is empty),
      leaving the buffer empty; `None` at end of input. */
  function Next(lx: LexState): (r: Result<Step>)
    requires Valid(lx)
    ensures r.Ok? ==> Valid(r.value.rest) && r.value.rest.buffered.None?
    ensures r.Ok? ==> r.value.rest.input == lx.input && r.value.rest.rollsBack == lx.rollsBack
    ensures r.Ok? ==> Remaining(r.value.rest) <= Remaining(lx)
    ensures r.Ok? && r.value.tok.Some? ==> Remaining(r.value.rest) < Remaining(lx)
    ensures lx.buffered.Some? ==> r == Ok(Step(lx.buffered, lx.(buffered := None)))
    ensures lx.buffered.None? && lx.eof ==> r == Ok(Step(None, lx))
    ensures lx.buffered.None? && !lx.eof ==> r == ReadToken(lx)
    ensures r.Err? ==> r.error.UnrecognizedCharacter?
  {
    var filled :- Fill(lx);
    Ok(Step(filled.buffered, filled.(buffered := None)))
  }

  /** `peek`: the token `next` would return, kept in the buffer. */
  function Peek(lx: LexState): (r: Result<Step>)
    requires Valid(lx)
    ensures r.Ok? ==> Valid(r.value.rest) && r.value.rest.buffered == r.value.tok
    ensures lx.buffered.Some? ==> r == Ok(Step(lx.buffered, lx))
    ensures lx.buffered.None? && lx.eof ==> r == Ok(Step(None, lx))
  {
    var filled :- Fill(lx);
    Ok(Step(filled.buffered, filled))
  }

  /** The whole token stream: `next` until it returns `None`. */
  function Tokenize(lx: LexState): (r: Result<seq<Token>>)
    requires Valid(lx)
    ensures r.Err? ==> r.error.UnrecognizedCharacter?
    decreases Remaining(lx)
  {
    var step :- Next(lx);
    if step.tok.None? then Ok([])
    else
      var more :- Tokenize(step.rest);
      Ok([step.tok.value] + more)
  }

  /** How the token stream stops: the lexer found the end of its input (its
      line counter then), or it failed. */
  datatype Stop = AtEnd(line: int) | Failed(error: Error)

  /** The tokens successive calls of `next` hand out, in order, up to the
      call that returns `None` or fails. */
  datatype Stream = Stream(tokens: seq<Token>, stop: Stop)

  function Scan(lx: LexState): (r: Stream)
    requires Valid(lx)
    ensures r.stop.Failed? ==> r.stop.error.UnrecognizedCharacter?
    decreases Remaining(lx)
  {
    match Next(lx)
    case Err(e) => Stream([], Failed(e))
    case Ok(Step(None, l)) => Stream([], AtEnd(l.line))
    case Ok(Step(Some(t), l)) =>
      var more := Scan(l);
      Stream([t] + more.tokens, more.stop)
  }
}

/**
 Properties of the lexer that relate several calls: the lookahead buffer,
 maximal munch over a whole input, the round trip through a rendering of
 tokens, and the position counters.
 */
module LexerProperties {
  import opened Options
  import opened Syntax
  import opened Errors
  import opened Lexer

  // ---------------------------------------------------------------------
  // The lookahead buffer

  /** A second `peek` returns the same token and state as the first. */
  lemma {:induction false} PeekIdempotent(lx: LexState)
    requires Valid(lx)
    ensures Peek(lx).Ok? ==> Peek(Peek(lx).value.rest) == Peek(lx)
  {
    if lx.buffered.None? && !lx.eof {
      var r := ReadToken(lx);
      var j := FirstNonSpace(lx.input, lx.pos);
      if j < |lx.input| {
        assert ScansAs(lx.input, j, r);
      }
    }
  }

  /** `peek` does not consume: `next` after it returns what `next` alone would. */
  lemma {:induction false} NextAfterPeek(lx: LexState)
    requires Valid(lx)
    ensures Peek(lx).Ok? <==> Next(lx).Ok?
    ensures Peek(lx).Err? ==> Peek(lx).error == Next(lx).error
    ensures Peek(lx).Ok? ==>
      && Peek(lx).value.tok == Next(lx).value.tok
      && Next(Peek(lx).value.rest) == Next(lx)
  {
    if lx.buffered.None? && !lx.eof {
      var r := ReadToken(lx);
      var j := FirstNonSpace(lx.input, lx.pos);
      if j < |lx.input| {
        assert ScansAs(lx.input, j, r);
      }
    }
  }

  /** `next` returns `None` exactly when the buffer is empty and only
      whitespace is left. */
  lemma {:induction false} NextNoneAtEnd(lx: LexState)
    requires Valid(lx)
    ensures (Next(lx).Ok? && Next(lx).value.tok.None?) <==>
      (lx.buffered.None? && FirstNonSpace(lx.input, lx.pos) == |lx.input|)
  {
    var j := FirstNonSpace(lx.input, lx.pos);
    if lx.buffered.None? && !lx.eof && j < |lx.input| {
      assert ScansAs(lx.input, j, ReadToken(lx));
    }
  }

  // ---------------------------------------------------------------------
  // Maximal munch

  /** Two maximal runs of one class from the same index end at the same place. */
  lemma {:induction false} MaximalRunUnique(cls: CharClass, s: string, j: nat, e1: nat, e2: nat)
    requires j <= e1 <= |s| && j <= e2 <= |s|
    requires AllIn(cls, s[j..e1]) && (e1 < |s| ==> !InClass(cls, s[e1]))
    requires AllIn(cls, s[j..e2]) && (e2 < |s| ==> !InClass(cls, s[e2]))
    ensures e1 == e2
  {
  }

  /** `read_continued_token` stops exactly where the maximal run of its class
      ends: `RunEnd` is the reference definition of that place. */
  lemma {:induction false} ReadContinuedRunEnd(kind: TokenKind, cls: CharClass, lexeme: string, line: int, col: int, lx: LexState)
    requires Valid(lx)
    ensures ReadContinued(kind, cls, lexeme, line, col, lx).rest.pos == RunEnd(cls, lx.input, lx.pos)
  {
    var r := ReadContinued(kind, cls, lexeme, line, col, lx);
    MaximalRunUnique(cls, lx.input, lx.pos, r.rest.pos, RunEnd(cls, lx.input, lx.pos));
  }

  /** A character that can appear in an input the lexer accepts. */
  predicate Lexable(c: char) {
    IsSpace(c) || IsAlpha(c) || IsDigit(c) || OperatorKind(c).Some?
  }

  /** A token scanned from index `j` spans token text only. */
  lemma {:induction false} ScannedLexable(s: string, j: nat, r: Result<Step>)
    requires j < |s| && ScansAs(s, j, r) && r.Ok?
    ensures j < r.value.rest.pos <= |s|
    ensures forall k :: j <= k < r.value.rest.pos ==> Lexable(s[k])
  {
    var e := r.value.rest.pos;
    if IsAlpha(s[j]) || IsDigit(s[j]) {
      forall k | j <= k < e
        ensures Lexable(s[k])
      {
        assert r.value.tok.value.lexeme[k - j] == s[k];
      }
    }
  }

  /** Everything one successful `next` moves past is whitespace or token text. */
  lemma {:induction false} NextCovers(lx: LexState)
    requires Valid(lx)
    requires Next(lx).Ok?
    ensures lx.pos <= Next(lx).value.rest.pos
    ensures forall k :: lx.pos <= k < Next(lx).value.rest.pos ==> Lexable(lx.input[k])
    ensures Next(lx).value.tok.None? ==> forall k :: lx.pos <= k < |lx.input| ==> Lexable(lx.input[k])
  {
    if lx.buffered.None? && !lx.eof {
      var j := FirstNonSpace(lx.input, lx.pos);
      if j < |lx.input| {
        NextScans(lx, j);
        ScannedLexable(lx.input, j, Next(lx));
      }
    }
  }

  /** A successfully tokenized input consists of whitespace and token text only. */
  lemma {:induction false} TokenizeCovers(lx: LexState)
    requires Valid(lx)
    requires Tokenize(lx).Ok?
    ensures forall k :: lx.pos <= k < |lx.input| ==> Lexable(lx.input[k])
    decreases Remaining(lx)
  {
    NextCovers(lx);
    var step := Next(lx).value;
    if step.tok.Some? {
      TokenizeCovers(step.rest);
    }
  }

  lemma {:induction false} TokenizedCharLexable(lx: LexState, k: nat)
    requires Valid(lx) && lx.pos <= k < |lx.input|
    requires Tokenize(lx).Ok?
    ensures Lexable(lx.input[k])
  {
    TokenizeCovers(lx);
  }

  /** So `=` and `;` anywhere in the unread input make tokenization fail. */
  lemma {:induction false} AssignAndSemicolonRejected(lx: LexState, k: nat)
    requires Valid(lx) && lx.pos <= k < |lx.input|
    requires lx.input[k] == '=' || lx.input[k] == ';'
    ensures Tokenize(lx).Err?
  {
    assert !Lexable(lx.input[k]);
    if Tokenize(lx).Ok? {
      TokenizedCharLexable(lx, k);
      assert false;
    }
  }

  // ---------------------------------------------------------------------
  // Round trip through a rendering of tokens

  /** The kind and lexeme of a token, without its position. */
  datatype Spelling = Spelling(kind: TokenKind, lexeme: string)

  function Spellings(ts: seq<Token>): (r: seq<Spelling>)
    ensures |r| == |ts|
  {
    if ts == [] then [] else [Spelling(ts[0].kind, ts[0].lexeme)] + Spellings(ts[1..])
  }

  lemma {:induction false} SpellingsCons(t: Token, ts: seq<Token>)
    ensures Spellings([t] + ts) == [Spelling(t.kind, t.lexeme)] + Spellings(ts)
  {
    assert ([t] + ts)[1..] == ts;
  }

  /** A spelling the lexer can produce: a run of letters for an identifier,
      a run of digits for a literal, the operator's character for an operator.
      No spelling exists for `=` and `;`. */
  predicate WellSpelled(sp: Spelling) {
    match sp.kind
    case Identifier => |sp.lexeme| > 0 && AllIn(Alpha, sp.lexeme)
    case IntegerLiteral => |sp.lexeme| > 0 && AllIn(Digit, sp.lexeme)
    case Plus => sp.lexeme == "+"
    case Minus => sp.lexeme == "-"
    case Times => sp.lexeme == "*"
    case Divide => sp.lexeme == "/"
    case Assign => false
    case Semicolon => false
  }

  /** Source text for a token sequence: each lexeme preceded by one space. */
  function Render(sps: seq<Spelling>): string {
    if sps == [] then "" else " " + sps[0].lexeme + Render(sps[1..])
  }

  /** A token scanned from any index is well spelled. */
  lemma {:induction false} ScannedWellSpelled(s: string, j: nat, r: Result<Step>)
    requires j < |s| && ScansAs(s, j, r) && r.Ok?
    ensures r.value.tok.Some? && WellSpelled(Spelling(r.value.tok.value.kind, r.value.tok.value.lexeme))
  {
    if !IsAlpha(s[j]) && !IsDigit(s[j]) {
      var c := s[j];
      assert c == '+' || c == '-' || c == '*' || c == '/';
    }
  }

  /** Every token the lexer produces is well spelled. */
  lemma {:induction false} TokenizeWellSpelled(lx: LexState)
    requires Valid(lx) && lx.buffered.None?
    requires Tokenize(lx).Ok?
    ensures forall k :: 0 <= k < |Tokenize(lx).value| ==> WellSpelled(Spellings(Tokenize(lx).value)[k])
    decreases Remaining(lx)
  {
    var step := Next(lx).value;
    if step.tok.Some? {
      var j := FirstNonSpace(lx.input, lx.pos);
      NextScans(lx, j);
      ScannedWellSpelled(lx.input, j, Next(lx));
      var t := step.tok.value;
      TokenizeWellSpelled(step.rest);
      TokenizeStep(lx, t, step.rest);
      SpellingsCons(t, Tokenize(step.rest).value);
    }
  }

  lemma {:induction false} RenderStartsWithSpace(sps: seq<Spelling>)
    ensures Render(sps) == [] || Render(sps)[0] == ' '
  {
  }

  /** The suffix of `s` from `p` split into two parts. */
  lemma {:induction false} SuffixSplit(s: string, p: nat, a: string, b: string)
    requires p <= |s| && s[p..] == a + b
    ensures p + |a| <= |s| && s[p..p + |a|] == a && s[p + |a|..] == b
  {
    assert s[p..p + |a|] == s[p..][..|a|];
    assert s[p + |a|..] == s[p..][|a|..];
  }

  lemma {:induction false} RenderedText(s: string, p: nat, sps: seq<Spelling>)
    requires p <= |s| && sps != []
    requires s[p..] == Render(sps)
    ensures p + 1 + |sps[0].lexeme| <= |s|
    ensures s[p] == ' '
    ensures s[p + 1..p + 1 + |sps[0].lexeme|] == sps[0].lexeme
    ensures s[p + 1 + |sps[0].lexeme|..] == Render(sps[1..])
    ensures p + 1 + |sps[0].lexeme| < |s| ==> s[p + 1 + |sps[0].lexeme|] == ' '
  {
    var l, rest := sps[0].lexeme, Render(sps[1..]);
    SuffixSplit(s, p, " ", l + rest);
    SuffixSplit(s, p + 1, l, rest);
    assert s[p] == s[p..p + 1][0];
    if p + 1 + |l| < |s| {
      RenderStartsWithSpace(sps[1..]);
      assert s[p + 1 + |l|] == s[p + 1 + |l|..][0];
    }
  }

  /** What a scan must return at a well-spelled lexeme followed by a space
      or the end of the input. */
  lemma {:induction false} ScansWellSpelled(s: string, j: nat, sp: Spelling, r: Result<Step>)
    requires WellSpelled(sp) && j + |sp.lexeme| <= |s|
    requires s[j..j + |sp.lexeme|] == sp.lexeme
    requires j + |sp.lexeme| < |s| ==> s[j + |sp.lexeme|] == ' '
    requires j < |s| && ScansAs(s, j, r)
    ensures r.Ok? && r.value.tok.Some?
    ensures Spelling(r.value.tok.value.kind, r.value.tok.value.lexeme) == sp
    ensures r.value.rest.pos == j + |sp.lexeme|
  {
    var m := j + |sp.lexeme|;
    assert s[j] == sp.lexeme[0];
    match sp.kind {
      case Identifier =>
        assert IsAlpha(s[j]);
        MaximalRunUnique(Alpha, s, j, r.value.rest.pos, m);
      case IntegerLiteral =>
        assert IsDigit(s[j]) && !IsAlpha(s[j]);
        MaximalRunUnique(Digit, s, j, r.value.rest.pos, m);
      case Plus =>
      case Minus =>
      case Times =>
      case Divide =>
    }
  }

  /** With an empty buffer and a character left after the whitespace,
      `next` scans from that character. */
  lemma {:induction false} NextScans(lx: LexState, j: nat)
    requires Valid(lx) && lx.buffered.None?
    requires j == FirstNonSpace(lx.input, lx.pos) && j < |lx.input|
    ensures Next(lx) == ReadToken(lx) && ScansAs(lx.input, j, Next(lx))
    ensures Next(lx).Ok? ==> Next(lx).value.rest.input == lx.input
  {
  }

  /** Rendered text starts with a space and then the first lexeme, which
      begins with a character that is not whitespace. */
  lemma {:induction false} RenderedFirst(s: string, p: nat, sps: seq<Spelling>)
    requires p <= |s| && sps != [] && WellSpelled(sps[0])
    requires s[p..] == Render(sps)
    ensures p + 1 < |s| && FirstNonSpace(s, p) == p + 1
  {
    RenderedText(s, p, sps);
    assert s[p + 1] == sps[0].lexeme[0];
  }

  /** A scan at the first rendered lexeme gives back its spelling and stops
      at the rendering of the rest. */
  lemma {:induction false} RenderedScan(s: string, p: nat, sps: seq<Spelling>, r: Result<Step>)
    requires p + 1 < |s| && sps != [] && WellSpelled(sps[0])
    requires s[p..] == Render(sps)
    requires ScansAs(s, p + 1, r)
    ensures r.Ok? && r.value.tok.Some?
    ensures Spelling(r.value.tok.value.kind, r.value.tok.value.lexeme) == sps[0]
    ensures r.value.rest.pos <= |s| && s[r.value.rest.pos..] == Render(sps[1..])
  {
    RenderedText(s, p, sps);
    ScansWellSpelled(s, p + 1, sps[0], r);
  }

  /** One step of the round trip: the first rendered token is scanned back. */
  lemma {:induction false} NextRendered(lx: LexState, sps: seq<Spelling>)
    requires Valid(lx) && lx.buffered.None?
    requires sps != [] && WellSpelled(sps[0])
    requires lx.input[lx.pos..] == Render(sps)
    ensures Next(lx).Ok? && Next(lx).value.tok.Some?
    ensures Spelling(Next(lx).value.tok.value.kind, Next(lx).value.tok.value.lexeme) == sps[0]
    ensures Next(lx).value.rest.input[Next(lx).value.rest.pos..] == Render(sps[1..])
  {
    RenderedFirst(lx.input, lx.pos, sps);
    NextScans(lx, lx.pos + 1);
    RenderedScan(lx.input, lx.pos, sps, Next(lx));
  }

  lemma {:induction false} TokenizeRenderedFrom(lx: LexState, sps: seq<Spelling>)
    requires Valid(lx) && lx.buffered.None?
    requires forall k :: 0 <= k < |sps| ==> WellSpelled(sps[k])
    requires lx.input[lx.pos..] == Render(sps)
    ensures Tokenize(lx).Ok? && Spellings(Tokenize(lx).value) == sps
    decreases |sps|
  {
    if sps == [] {
      assert lx.pos == |lx.input|;
      TokenizeAtEnd(lx);
    } else {
      NextRendered(lx, sps);
      var step := Next(lx).value;
      TokenizeRenderedFrom(step.rest, sps[1..]);
      TokenizeSpelledStep(lx, step.tok.value, step.rest, sps);
    }
  }

  /** The inductive step of `TokenizeRenderedFrom`, apart from the text. */
  lemma {:induction false} TokenizeSpelledStep(lx: LexState, t: Token, rest: LexState, sps: seq<Spelling>)
    requires Valid(lx) && Valid(rest) && sps != []
    requires Next(lx) == Ok(Step(Some(t), rest))
    requires Spelling(t.kind, t.lexeme) == sps[0]
    requires Tokenize(rest).Ok? && Spellings(Tokenize(rest).value) == sps[1..]
    ensures Tokenize(lx).Ok? && Spellings(Tokenize(lx).value) == sps
  {
    TokenizeStep(lx, t, rest);
    SpellingsCons(t, Tokenize(rest).value);
    assert sps == [sps[0]] + sps[1..];
  }

  /** Rendering well-spelled tokens and lexing the text gives them back. */
  lemma {:induction false} TokenizeRender(sps: seq<Spelling>)
    requires forall k :: 0 <= k < |sps| ==> WellSpelled(sps[k])
    ensures Tokenize(Init(Render(sps))).Ok?
    ensures Spellings(Tokenize(Init(Render(sps))).value) == sps
  {
    TokenizeRenderedFrom(Init(Render(sps)), sps);
  }

  /** A run of digits lexes as exactly one integer literal with that text. */
  lemma {:induction false} DigitsAreOneLiteral(d: string)
    requires |d| > 0 && AllIn(Digit, d)
    ensures Tokenize(Init(d)) == Ok([Token(IntegerLiteral, d, 1, 1)])
  {
    OneRunIsOneToken(IntegerLiteral, Digit, d);
  }

  /** A run of letters lexes as exactly one identifier with that text. */
  lemma {:induction false} LettersAreOneIdentifier(w: string)
    requires |w| > 0 && AllIn(Alpha, w)
    ensures Tokenize(Init(w)) == Ok([Token(Identifier, w, 1, 1)])
  {
    OneRunIsOneToken(Identifier, Alpha, w);
  }

  lemma {:induction false} OneRunIsOneToken(kind: TokenKind, cls: CharClass, w: string)
    requires |w| > 0 && AllIn(cls, w)
    requires (cls == Alpha && kind == Identifier) || (cls == Digit && kind == IntegerLiteral)
    ensures Tokenize(Init(w)) == Ok([Token(kind, w, 1, 1)])
  {
    var lx := Init(w);
    assert InClass(cls, w[0]);
    assert FirstNonSpace(w, 0) == 0;
    var r := ReadToken(lx);
    assert ScansAs(w, 0, r);
    assert MaximalRun(kind, cls, w, 0, r.value);
    MaximalRunUnique(cls, w, 0, r.value.rest.pos, |w|);
    assert w[0..|w|] == w;
    var t := r.value.tok.value;
    assert t.lexeme == w && t.kind == kind;
    assert LineCol(w, 0) == (1, 1);
    assert t.line == 1 && t.col == 1;
    var rest := r.value.rest;
    TokenizeAtEnd(rest);
    TokenizeStep(lx, t, rest);
    assert [t] + Tokenize(rest).value == [t];
  }

  // ---------------------------------------------------------------------
  // Position counters

  /** The token's text occurs in `s` at a place whose physical line and
      column are the token's. */
  ghost predicate Located(s: string, t: Token) {
    exists i :: 0 <= i <= |s| - |t.lexeme| && s[i..i + |t.lexeme|] == t.lexeme && LineCol(s, i) == (t.line, t.col)
  }

  /** With counters rolled back on `unread`, a token `next` hands out
      reports the physical position of its first character, and the
      counters stay exact. At the end of input they count the whole input. */
  lemma {:induction false} NextLocated(lx: LexState)
    requires Valid(lx) && lx.buffered.None? && lx.rollsBack && Counted(lx)
    requires Next(lx).Ok?
    ensures Counted(Next(lx).value.rest)
    ensures Next(lx).value.tok.Some? ==> Located(lx.input, Next(lx).value.tok.value)
    ensures Next(lx).value.tok.None? ==> Next(lx).value.rest.pos == |lx.input|
  {
    var step := Next(lx).value;
    if !lx.eof {
      var j := FirstNonSpace(lx.input, lx.pos);
      var r := ReadToken(lx);
      if step.tok.Some? {
        assert j < |lx.input|;
        assert ScansAs(lx.input, j, r);
        var t := step.tok.value;
        assert lx.input[j..j + |t.lexeme|] == t.lexeme;
        assert Located(lx.input, t);
      }
    }
  }

  lemma {:induction false} TokenizeLocated(lx: LexState)
    requires Valid(lx) && lx.buffered.None? && lx.rollsBack && Counted(lx)
    requires Tokenize(lx).Ok?
    ensures forall k :: 0 <= k < |Tokenize(lx).value| ==> Located(lx.input, Tokenize(lx).value[k])
  {
    ScanTokenize(lx);
    ScanTokensLocated(lx);
  }

  // ---------------------------------------------------------------------
  // The token stream the parser reads
  // ---------------------------------------------------------------------

  /** Each token `next` hands out takes at least one character of input, or
      is the one buffered: however the stream stops, it holds no more tokens
      than that. */
  lemma {:induction false} ScanCount(lx: LexState)
    requires Valid(lx)
    ensures |Scan(lx).tokens| <= |lx.input| - lx.pos + (if lx.buffered.Some? then 1 else 0)
    decreases Remaining(lx)
  {
    var n := Next(lx);
    if n.Ok? && n.value.tok.Some? {
      ScanCount(n.value.rest);
    }
  }

  /** The stream stops at the end exactly when tokenizing succeeds, and then
      holds the same tokens; otherwise it stops with tokenizing's error. */
  lemma {:induction false} ScanTokenize(lx: LexState)
    requires Valid(lx)
    ensures Tokenize(lx).Ok? <==> Scan(lx).stop.AtEnd?
    ensures Tokenize(lx).Ok? ==> Tokenize(lx).value == Scan(lx).tokens
    ensures Tokenize(lx).Err? ==> Scan(lx).stop == Failed(Tokenize(lx).error)
    decreases Remaining(lx)
  {
    match Next(lx)
    case Err(_) =>
    case Ok(Step(None, _)) =>
    case Ok(Step(Some(t), l)) => ScanTokenize(l);
  }

  /** The same bound on the token list of a successful tokenizing. */
  lemma {:induction false} TokenizeCount(lx: LexState)
    requires Valid(lx)
    ensures Tokenize(lx).Ok? ==> |Tokenize(lx).value| <= |lx.input| - lx.pos + (if lx.buffered.Some? then 1 else 0)
  {
    ScanCount(lx);
    ScanTokenize(lx);
  }

  /** The stream after one token is that token followed by the rest. */
  lemma {:induction false} ScanStep(lx: LexState, t: Token, l: LexState)
    requires Valid(lx) && Valid(l)
    requires Next(lx) == Ok(Step(Some(t), l))
    ensures Scan(lx) == Stream([t] + Scan(l).tokens, Scan(l).stop)
  {
  }

  /** A token kind the lexer can hand out: an operand or an arithmetic
      operator. */
  predicate LexedKind(t: Token) {
    IsOperand(t.kind) || IsArithmetic(t.kind)
  }

  /** The lexer only hands out operands and arithmetic operators. */
  lemma {:induction false} NextKinds(lx: LexState, t: Token, l: LexState)
    requires Valid(lx) && lx.buffered.None?
    requires Next(lx) == Ok(Step(Some(t), l))
    ensures LexedKind(t)
  {
    var j := FirstNonSpace(lx.input, lx.pos);
    assert j < |lx.input|;
    NextScans(lx, j);
  }

  /** A stream that hands out no token has no tokens. */
  lemma {:induction false} ScanNoToken(lx: LexState)
    requires Valid(lx)
    requires Next(lx).Err? || Next(lx).value.tok.None?
    ensures Scan(lx).tokens == []
  {
  }

  lemma {:induction false} ScanKinds(lx: LexState)
    requires Valid(lx) && lx.buffered.None?
    ensures forall k :: 0 <= k < |Scan(lx).tokens| ==> LexedKind(Scan(lx).tokens[k])
    decreases Remaining(lx)
  {
    var r := Next(lx);
    if r.Ok? && r.value.tok.Some? {
      var t, l := r.value.tok.value, r.value.rest;
      NextKinds(lx, t, l);
      ScanKinds(l);
      var ts, more := Scan(lx).tokens, Scan(l).tokens;
      ScanStep(lx, t, l);
      forall k | 0 <= k < |ts| ensures LexedKind(ts[k]) {
        if k > 0 { assert ts[k] == more[k - 1]; }
      }
    } else {
      ScanNoToken(lx);
    }
  }

  /** With the corrected lexer, every streamed token is located at its first
      character, and a stream that reaches the end reports the line the
      input ends on. */
  lemma {:induction false} ScanLocated(lx: LexState)
    requires Valid(lx) && lx.buffered.None? && lx.rollsBack && Counted(lx)
    ensures forall k :: 0 <= k < |Scan(lx).tokens| ==> Located(lx.input, Scan(lx).tokens[k])
    ensures Scan(lx).stop.AtEnd? ==> Scan(lx).stop.line == LineCol(lx.input, |lx.input|).0
  {
    ScanTokensLocated(lx);
    ScanStopLine(lx);
  }

  lemma {:induction false} ScanTokensLocated(lx: LexState)
    requires Valid(lx) && lx.buffered.None? && lx.rollsBack && Counted(lx)
    ensures forall k :: 0 <= k < |Scan(lx).tokens| ==> Located(lx.input, Scan(lx).tokens[k])
    decreases Remaining(lx)
  {
    match Next(lx)
    case Err(_) =>
    case Ok(Step(None, l)) =>
    case Ok(Step(Some(t), l)) =>
      NextLocated(lx);
      ScanTokensLocated(l);
      ScanStep(lx, t, l);
      PrependLocated(lx.input, t, Scan(l).tokens);
  }

  /** A located token in front of located tokens. */
  lemma {:induction false} PrependLocated(s: string, t: Token, more: seq<Token>)
    requires Located(s, t) && forall k :: 0 <= k < |more| ==> Located(s, more[k])
    ensures forall k :: 0 <= k < |[t] + more| ==> Located(s, ([t] + more)[k])
  {
    var ts := [t] + more;
    forall k | 0 <= k < |ts| ensures Located(s, ts[k]) {
      if k > 0 { assert ts[k] == more[k - 1]; }
    }
  }

  lemma {:induction false} ScanStopLine(lx: LexState)
    requires Valid(lx) && lx.buffered.None? && lx.rollsBack && Counted(lx)
    ensures Scan(lx).stop.AtEnd? ==> Scan(lx).stop.line == LineCol(lx.input, |lx.input|).0
    decreases Remaining(lx)
  {
    match Next(lx)
    case Err(_) =>
    case Ok(Step(None, l)) =>
      NextLocated(lx);
    case Ok(Step(Some(t), l)) =>
      NextLocated(lx);
      ScanStopLine(l);
  }

  /** Tokenizing where only whitespace is left gives no tokens. */
  lemma {:induction false} TokenizeAtEnd(lx: LexState)
    requires Valid(lx) && lx.buffered.None? && FirstNonSpace(lx.input, lx.pos) == |lx.input|
    ensures Tokenize(lx) == Ok([])
  {
    NextNoneAtEnd(lx);
  }

  /** Tokenizing after one token is that token followed by the rest. */
  lemma {:induction false} TokenizeStep(lx: LexState, t: Token, rest: LexState)
    requires Valid(lx) && Valid(rest)
    requires Next(lx) == Ok(Step(Some(t), rest))
    requires Tokenize(rest).Ok?
    ensures Tokenize(lx) == Ok([t] + Tokenize(rest).value)
  {
  }

  lemma {:induction false} TokenizeTwo(l0: LexState, t1: Token, l1: LexState, t2: Token, l2: LexState)
    requires Valid(l0) && Valid(l1) && Valid(l2)
    requires Next(l0) == Ok(Step(Some(t1), l1))
    requires Next(l1) == Ok(Step(Some(t2), l2))
    requires l2.buffered.None? && FirstNonSpace(l2.input, l2.pos) == |l2.input|
    ensures Tokenize(l0) == Ok([t1, t2])
  {
    TokenizeAtEnd(l2);
    TokenizeStep(l1, t2, l2);
    assert [t2] + Tokenize(l2).value == [t2];
    TokenizeStep(l0, t1, l1);
    assert [t1] + [t2] == [t1, t2];
  }

  lemma {:induction false} FirstTokenRolledBack()
    ensures ReadToken(Init("ab\ncd")) == Ok(Step(Some(Token(Identifier, "ab", 1, 1)), LexState("ab\ncd", 2, 1, 3, false, None, true)))
  {
    var s := "ab\ncd";
    var t1 := ReadToken(Init(s));
    assert LineCol(s, 1) == (1, 2);
    assert FirstNonSpace(s, 0) == 0;
    assert ScansAs(s, 0, t1);
    MaximalRunUnique(Alpha, s, 0, t1.value.rest.pos, 2);
    assert t1.value.rest.pos == 2;
    assert s[0..2] == "ab";
    assert LineCol(s, 2) == (1, 3);
  }

  lemma {:induction false} SecondTokenRolledBack()
    ensures ReadToken(LexState("ab\ncd", 2, 1, 3, false, None, true))
      == Ok(Step(Some(Token(Identifier, "cd", 2, 1)), LexState("ab\ncd", 5, 2, 3, true, None, true)))
  {
    var s := "ab\ncd";
    var l1 := LexState(s, 2, 1, 3, false, None, true);
    assert LineCol(s, 2) == (1, 3);
    assert LineCol(s, 3) == (2, 1);
    assert LineCol(s, 5) == (2, 3);
    var t2 := ReadToken(l1);
    assert FirstNonSpace(s, 2) == 3;
    assert ScansAs(s, 3, t2);
    MaximalRunUnique(Alpha, s, 3, t2.value.rest.pos, 5);
    assert s[3..5] == "cd";
  }

  /** The corrected lexer on "ab\ncd" puts "cd" on line 2. */
  lemma {:induction false} CountersRolledBack()
    ensures Tokenize(Init("ab\ncd")) == Ok([Token(Identifier, "ab", 1, 1), Token(Identifier, "cd", 2, 1)])
  {
    var s := "ab\ncd";
    FirstTokenRolledBack();
    SecondTokenRolledBack();
    var l1 := LexState(s, 2, 1, 3, false, None, true);
    var l2 := LexState(s, 5, 2, 3, true, None, true);
    TokenizeTwo(Init(s), Token(Identifier, "ab", 1, 1), l1, Token(Identifier, "cd", 2, 1), l2);
  }

  lemma {:induction false} FirstTokenAsWritten()
    ensures ReadToken(InitAsWritten("ab\ncd")) == Ok(Step(Some(Token(Identifier, "ab", 1, 1)), LexState("ab\ncd", 2, 2, 1, false, None, false)))
  {
    var s := "ab\ncd";
    var l0 := InitAsWritten(s);
    assert SkipSpace(l0) == Skipped(Some('a'), 1, 1, LexState(s, 1, 1, 2, false, None, false));
    var r1 := ReadContinued(Identifier, Alpha, "ab", 1, 1, LexState(s, 2, 1, 3, false, None, false));
    assert r1 == Lexed(Token(Identifier, "ab", 1, 1), LexState(s, 2, 2, 1, false, None, false));
    assert ReadContinued(Identifier, Alpha, "a", 1, 1, LexState(s, 1, 1, 2, false, None, false)) == r1;
  }

  lemma {:induction false} SecondTokenAsWritten()
    ensures ReadToken(LexState("ab\ncd", 2, 2, 1, false, None, false))
      == Ok(Step(Some(Token(Identifier, "cd", 3, 1)), LexState("ab\ncd", 5, 3, 3, true, None, false)))
  {
    var s := "ab\ncd";
    var l1 := LexState(s, 2, 2, 1, false, None, false);
    var k1 := LexState(s, 3, 3, 1, false, None, false);
    assert SkipSpace(k1) == Skipped(Some('c'), 3, 1, LexState(s, 4, 3, 2, false, None, false));
    assert SkipSpace(l1) == SkipSpace(k1);
    var r2 := ReadContinued(Identifier, Alpha, "cd", 3, 1, LexState(s, 5, 3, 3, false, None, false));
    assert r2 == Lexed(Token(Identifier, "cd", 3, 1), LexState(s, 5, 3, 3, true, None, false));
    assert ReadContinued(Identifier, Alpha, "c", 3, 1, LexState(s, 4, 3, 2, false, None, false)) == r2;
  }

  /** As written, the same input puts "cd" on line 3: the newline that ends
      "ab" is counted when it is read, pushed back, and counted again. */
  lemma {:induction false} CountersDriftAsWritten()
    ensures Tokenize(InitAsWritten("ab\ncd")) == Ok([Token(Identifier, "ab", 1, 1), Token(Identifier, "cd", 3, 1)])
    ensures LineCol("ab\ncd", 3) == (2, 1)
  {
    var s := "ab\ncd";
    FirstTokenAsWritten();
    SecondTokenAsWritten();
    var l1 := LexState(s, 2, 2, 1, false, None, false);
    var l2 := LexState(s, 5, 3, 3, true, None, false);
    TokenizeTwo(InitAsWritten(s), Token(Identifier, "ab", 1, 1), l1, Token(Identifier, "cd", 3, 1), l2);
  }

  /** The character that ends a run is not consumed: it starts the next
      scan, at its own column. */
  lemma {:induction false} OperatorAfterLiteralColumn()
    ensures Tokenize(Init("12+")) == Ok([Token(IntegerLiteral, "12", 1, 1), Token(Plus, "+", 1, 3)])
  {
    var s := "12+";
    var l0 := Init(s);
    var r1 := ReadToken(l0);
    assert FirstNonSpace(s, 0) == 0;
    assert ScansAs(s, 0, r1);
    MaximalRunUnique(Digit, s, 0, r1.value.rest.pos, 2);
    assert s[0..2] == "12";
    assert LineCol(s, 2) == (1, 3);
    var l1 := LexState(s, 2, 1, 3, false, None, true);
    assert r1 == Ok(Step(Some(Token(IntegerLiteral, "12", 1, 1)), l1));
    var r2 := ReadToken(l1);
    assert FirstNonSpace(s, 2) == 2;
    assert ScansAs(s, 2, r2);
    var l2 := r2.value.rest;
    assert r2.value.tok == Some(Token(Plus, "+", 1, 3));
    TokenizeTwo(l0, Token(IntegerLiteral, "12", 1, 1), l1, Token(Plus, "+", 1, 3), l2);
  }

  /** As written, the same input puts the `+` at column 4: the `+` that ends
      the literal is counted when it is read, pushed back, and counted again. */
  lemma {:induction false} OperatorAfterLiteralColumnAsWritten()
    ensures Tokenize(InitAsWritten("12+")) == Ok([Token(IntegerLiteral, "12", 1, 1), Token(Plus, "+", 1, 4)])
  {
    var s := "12+";
    var l0 := InitAsWritten(s);
    assert SkipSpace(l0) == Skipped(Some('1'), 1, 1, LexState(s, 1, 1, 2, false, None, false));
    var r1 := ReadContinued(IntegerLiteral, Digit, "12", 1, 1, LexState(s, 2, 1, 3, false, None, false));
    assert r1 == Lexed(Token(IntegerLiteral, "12", 1, 1), LexState(s, 2, 1, 4, false, None, false));
    assert ReadContinued(IntegerLiteral, Digit, "1", 1, 1, LexState(s, 1, 1, 2, false, None, false)) == r1;
    var l1 := LexState(s, 2, 1, 4, false, None, false);
    assert SkipSpace(l1) == Skipped(Some('+'), 1, 4, LexState(s, 3, 1, 5, false, None, false));
    var l2 := LexState(s, 3, 1, 5, false, None, false);
    assert ReadToken(l1) == Ok(Step(Some(Token(Plus, "+", 1, 4)), l2));
    TokenizeTwo(l0, Token(IntegerLiteral, "12", 1, 1), l1, Token(Plus, "+", 1, 4), l2);
  }

  lemma {:induction false} PlusOneFirst(rollsBack: bool)
    ensures Next(LexState("+ 1\n", 0, 1, 1, false, None, rollsBack))
      == Ok(Step(Some(Token(Plus, "+", 1, 1)), LexState("+ 1\n", 1, 1, 2, false, None, rollsBack)))
  {
    var s := "+ 1\n";
    assert SkipSpace(LexState(s, 0, 1, 1, false, None, rollsBack)) == Skipped(Some('+'), 1, 1, LexState(s, 1, 1, 2, false, None, rollsBack));
  }

  lemma {:induction false} PlusOneSecond(rollsBack: bool)
    ensures Next(LexState("+ 1\n", 1, 1, 2, false, None, rollsBack))
      == Ok(Step(Some(Token(IntegerLiteral, "1", 1, 3)),
                 if rollsBack then LexState("+ 1\n", 3, 1, 4, false, None, true) else LexState("+ 1\n", 3, 2, 1, false, None, false)))
  {
    var s := "+ 1\n";
    var k := LexState(s, 3, 1, 4, false, None, rollsBack);
    assert SkipSpace(LexState(s, 2, 1, 3, false, None, rollsBack)) == Skipped(Some('1'), 1, 3, k);
    assert SkipSpace(LexState(s, 1, 1, 2, false, None, rollsBack)) == Skipped(Some('1'), 1, 3, k);
    var l2 := if rollsBack then k else LexState(s, 3, 2, 1, false, None, false);
    assert Read(k) == ReadResult(Some('\n'), LexState(s, 4, 2, 1, false, None, rollsBack));
    assert ReadContinued(IntegerLiteral, Digit, "1", 1, 3, k) == Lexed(Token(IntegerLiteral, "1", 1, 3), l2);
  }

  lemma {:induction false} PlusOneEnd(line: int, col: int, rollsBack: bool)
    ensures Next(LexState("+ 1\n", 3, line, col, false, None, rollsBack))
      == Ok(Step(None, LexState("+ 1\n", 4, line + 1, 1, true, None, rollsBack)))
  {
    var s := "+ 1\n";
    var l3 := LexState(s, 4, line + 1, 1, true, None, rollsBack);
    assert SkipSpace(LexState(s, 4, line + 1, 1, false, None, rollsBack)) == Skipped(None, line + 1, 1, l3);
    assert SkipSpace(LexState(s, 3, line, col, false, None, rollsBack)) == Skipped(None, line + 1, 1, l3);
  }

  /** `+ 1` and a newline stream as `+` and `1`, then stop at the end on line
      2 with the counters rolled back, and on line 3 as written: the newline
      that ends the literal is counted when it is read, pushed back, and
      counted again. */
  lemma {:induction false} PlusOneStream(rollsBack: bool)
    ensures Scan(LexState("+ 1\n", 0, 1, 1, false, None, rollsBack))
      == Stream([Token(Plus, "+", 1, 1), Token(IntegerLiteral, "1", 1, 3)], AtEnd(if rollsBack then 2 else 3))
  {
    var s := "+ 1\n";
    var l0 := LexState(s, 0, 1, 1, false, None, rollsBack);
    var l1 := LexState(s, 1, 1, 2, false, None, rollsBack);
    var l2 := if rollsBack then LexState(s, 3, 1, 4, false, None, true) else LexState(s, 3, 2, 1, false, None, false);
    PlusOneFirst(rollsBack);
    PlusOneSecond(rollsBack);
    PlusOneEnd(l2.line, l2.col, rollsBack);
    assert Scan(l2) == Stream([], AtEnd(l2.line + 1));
    ScanStep(l1, Token(IntegerLiteral, "1", 1, 3), l2);
    ScanStep(l0, Token(Plus, "+", 1, 1), l1);
  }
}

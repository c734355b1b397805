/**
 * The slice of the parser's cursor that the modifier-list production uses:
 * a lexed token stream, a position in it, and the primitives `at`, `eat`,
 * `expect`, `expectAny`, `consume(if:)` and `consumeAnyToken`.
 *
 * Every token the cursor hands out is a parsed token over the lexeme's whole
 * text, so a production that only consumes and synthesizes missing tokens
 * writes back exactly the source text it moved over; `SourceText` is that
 * text and `Consumed` the part of it between two cursors.
 */
module Parsing {
  import opened Common
  import opened Kinds
  import opened Raw

  /**
   * One lexed token: its kind and its whole text, which is the leading
   * trivia, then `textLength` bytes of token text, then trailing trivia.
   * Only end-of-file and string-segment tokens come out of the lexer empty.
   */
  datatype Lexeme = Lexeme(kind: TokenKind, wholeText: Bytes, leadingTriviaLength: nat, textLength: nat)

  predicate ValidLexeme(l: Lexeme)
  {
    && l.leadingTriviaLength + l.textLength <= |l.wholeText|
    && (l.textLength == 0 ==> l.kind == Eof || l.kind == StringSegment)
  }

  /**
   * A cursor into a token stream. The stream is followed by an end-of-file
   * token that is never stored: reading past the last lexeme sees `eof`.
   */
  datatype Parser = Parser(tokens: seq<Lexeme>, pos: nat)

  predicate Valid(p: Parser)
  {
    p.pos <= |p.tokens| && forall i :: 0 <= i < |p.tokens| ==> ValidLexeme(p.tokens[i])
  }

  /** `q` is `p` moved forward over the same stream. */
  predicate Advances(p: Parser, q: Parser)
  {
    q.tokens == p.tokens && p.pos <= q.pos <= |p.tokens|
  }

  /** The kind of the current token; past the last lexeme it is `eof`. */
  function CurrentKind(p: Parser): TokenKind
  {
    if p.pos < |p.tokens| then p.tokens[p.pos].kind else Eof
  }

  /** `at(kind)`: the current token is a lexeme of kind `k`. */
  predicate At(p: Parser, k: TokenKind)
  {
    p.pos < |p.tokens| && p.tokens[p.pos].kind == k
  }

  /** `at(anyIn:)` over a set of kinds. */
  predicate AtAny(p: Parser, ks: set<TokenKind>)
  {
    p.pos < |p.tokens| && p.tokens[p.pos].kind in ks
  }

  /** The cursor one token further on; `lookahead()` followed by an `eat`. */
  function Advanced(p: Parser): Parser
    requires p.pos < |p.tokens|
  {
    p.(pos := p.pos + 1)
  }

  // ---------------------------------------------------------------------------
  // The text a cursor moves over

  /** The whole texts of the lexemes `ts[i..j]`, concatenated. */
  function SourceText(ts: seq<Lexeme>, i: nat, j: nat): Bytes
    requires i <= j <= |ts|
    decreases j - i
  {
    if i == j then [] else SourceText(ts, i, j - 1) + ts[j - 1].wholeText
  }

  /** The text between two cursors splits at any cursor in between. */
  lemma {:induction false} SourceTextSplit(ts: seq<Lexeme>, i: nat, j: nat, k: nat)
    requires i <= j <= k <= |ts|
    ensures SourceText(ts, i, k) == SourceText(ts, i, j) + SourceText(ts, j, k)
    decreases k - j
  {
    if j < k {
      SourceTextSplit(ts, i, j, k - 1);
      SeqAssoc(SourceText(ts, i, j), SourceText(ts, j, k - 1), ts[k - 1].wholeText);
    }
  }

  /** The source text `p` moved over to reach `q`. */
  function Consumed(p: Parser, q: Parser): Bytes
    requires Advances(p, q)
  {
    SourceText(p.tokens, p.pos, q.pos)
  }

  /** Moving over nothing consumes nothing. */
  lemma ConsumedNothing(p: Parser)
    requires p.pos <= |p.tokens|
    ensures Advances(p, p) && Consumed(p, p) == []
  {
  }

  /** What two successive moves consume is what the combined move consumes. */
  lemma ConsumedChain(p: Parser, q: Parser, s: Parser)
    requires Advances(p, q) && Advances(q, s)
    ensures Advances(p, s)
    ensures Consumed(p, s) == Consumed(p, q) + Consumed(q, s)
  {
    SourceTextSplit(p.tokens, p.pos, q.pos, s.pos);
  }

  // ---------------------------------------------------------------------------
  // Cursor primitives

  /**
   * `eat(handle)`: turns the current lexeme into a parsed token and moves
   * past it. The token writes exactly the lexeme's whole text.
   */
  function Eat(p: Parser): (r: (RawSyntax, Parser))
    requires Valid(p) && p.pos < |p.tokens|
    ensures Valid(r.1) && Advances(p, r.1) && r.1.pos == p.pos + 1
    ensures WellFormed(r.0) && IsTokenPayload(r.0) && r.0.tokenKind == p.tokens[p.pos].kind
    ensures Write(r.0) == Consumed(p, r.1) && !HasError(r.0)
    ensures TokenText(r.0) == p.tokens[p.pos].wholeText[p.tokens[p.pos].leadingTriviaLength..p.tokens[p.pos].leadingTriviaLength + p.tokens[p.pos].textLength]
  {
    var l := p.tokens[p.pos];
    assert ValidLexeme(l);
    assert SourceText(p.tokens, p.pos, p.pos + 1) == [] + l.wholeText == l.wholeText;
    (MakeParsedToken(l.kind, l.wholeText, l.leadingTriviaLength, l.leadingTriviaLength + l.textLength), Advanced(p))
  }

  /**
   * `consumeAnyToken()`: eats whatever the current token is. At the end of
   * the stream the current token is the empty end-of-file token, which is
   * handed out without moving.
   */
  function ConsumeAnyToken(p: Parser): (r: (RawSyntax, Parser))
    requires Valid(p)
    ensures Valid(r.1) && Advances(p, r.1)
    ensures WellFormed(r.0) && IsTokenPayload(r.0) && r.0.tokenKind == CurrentKind(p)
    ensures r.1.pos == if p.pos < |p.tokens| then p.pos + 1 else p.pos
    ensures Write(r.0) == Consumed(p, r.1) && !HasError(r.0)
  {
    if p.pos < |p.tokens| then Eat(p)
    else (MakeParsedToken(Eof, [], 0, 0), p)
  }

  /**
   * `expect(kind)`: eats the current token if it has kind `k`, otherwise
   * synthesizes a missing token of kind `k` and stays put.
   */
  function Expect(p: Parser, k: TokenKind): (r: (RawSyntax, Parser))
    requires Valid(p)
    ensures Valid(r.1) && Advances(p, r.1)
    ensures WellFormed(r.0) && IsTokenPayload(r.0) && r.0.tokenKind == k
    ensures r.1.pos == if At(p, k) then p.pos + 1 else p.pos
    ensures !At(p, k) ==> r.0 == MakeMissingToken(k)
    ensures HasError(r.0) <==> !At(p, k) && k != Eof && k != StringSegment
    ensures Write(r.0) == Consumed(p, r.1)
  {
    if At(p, k) then Eat(p) else (MakeMissingToken(k), p)
  }

  /**
   * `expectAny(kinds, default:)`: eats the current token if its kind is one
   * of `ks`, otherwise synthesizes a missing token of kind `default`.
   */
  function ExpectAny(p: Parser, ks: set<TokenKind>, default: TokenKind): (r: (RawSyntax, Parser))
    requires Valid(p)
    ensures Valid(r.1) && Advances(p, r.1)
    ensures WellFormed(r.0) && IsTokenPayload(r.0)
    ensures r.0.tokenKind == if AtAny(p, ks) then CurrentKind(p) else default
    ensures r.1.pos == if AtAny(p, ks) then p.pos + 1 else p.pos
    ensures !AtAny(p, ks) ==> r.0 == MakeMissingToken(default)
    ensures HasError(r.0) <==> !AtAny(p, ks) && default != Eof && default != StringSegment
    ensures Write(r.0) == Consumed(p, r.1)
  {
    if AtAny(p, ks) then Eat(p) else (MakeMissingToken(default), p)
  }

  /** `consume(if: kind)`: eats the current token only if it has kind `k`. */
  function ConsumeIf(p: Parser, k: TokenKind): (r: (Option<RawSyntax>, Parser))
    requires Valid(p)
    ensures Valid(r.1) && Advances(p, r.1)
    ensures r.0.Some? <==> At(p, k)
    ensures r.0.None? ==> r.1 == p
    ensures r.0.Some? ==> r.1.pos == p.pos + 1 && WellFormed(r.0.value) && IsTokenPayload(r.0.value)
                          && r.0.value.tokenKind == k && Write(r.0.value) == Consumed(p, r.1)
                          && !HasError(r.0.value)
  {
    if At(p, k) then var (t, q) := Eat(p); (Some(t), q) else (None, p)
  }
}

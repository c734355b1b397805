/**
 * Trivia: the whitespace and comments attached to the edges of a token. A
 * piece knows its own UTF-8 length and its own text; a sequence of pieces is
 * written by concatenating the pieces' texts.
 */
module Trivia {
  import opened Common

  datatype TriviaPiece =
    | Spaces(count: nat)
    | Tabs(count: nat)
    | Newlines(count: nat)
    | CarriageReturns(count: nat)
    | LineComment(text: Bytes)
    | BlockComment(text: Bytes)
    | UnexpectedText(text: Bytes)

  type Trivia = seq<TriviaPiece>

  /** `n` copies of the byte `b`. */
  function Repeat(b: Byte, n: nat): (r: Bytes)
    ensures |r| == n
    ensures forall i :: 0 <= i < n ==> r[i] == b
  {
    if n == 0 then [] else [b] + Repeat(b, n - 1)
  }

  /** `sourceLength.utf8Length` of a piece, computed from its description rather than its text. */
  function PieceByteLength(p: TriviaPiece): nat
  {
    match p
    case Spaces(n) => n
    case Tabs(n) => n
    case Newlines(n) => n
    case CarriageReturns(n) => n
    case LineComment(t) => |t|
    case BlockComment(t) => |t|
    case UnexpectedText(t) => |t|
  }

  /** The text a piece writes; its length always agrees with `PieceByteLength`. */
  function PieceText(p: TriviaPiece): (r: Bytes)
    ensures |r| == PieceByteLength(p)
  {
    match p
    case Spaces(n) => Repeat(0x20, n)
    case Tabs(n) => Repeat(0x09, n)
    case Newlines(n) => Repeat(0x0A, n)
    case CarriageReturns(n) => Repeat(0x0D, n)
    case LineComment(t) => t
    case BlockComment(t) => t
    case UnexpectedText(t) => t
  }

  /** Sum of the pieces' byte lengths. */
  function TriviaByteLength(t: Trivia): nat
  {
    if |t| == 0 then 0 else PieceByteLength(t[0]) + TriviaByteLength(t[1..])
  }

  /** The pieces' texts, in order. */
  function WriteTrivia(t: Trivia): Bytes
  {
    if |t| == 0 then [] else PieceText(t[0]) + WriteTrivia(t[1..])
  }

  /** A trivia lexer turns trivia text back into pieces; it is lossless when writing the pieces gives the text back. */
  ghost predicate Lossless(lex: Bytes -> Trivia)
  {
    forall text :: WriteTrivia(lex(text)) == text
  }

  lemma {:induction false} WriteTriviaLength(t: Trivia)
    ensures |WriteTrivia(t)| == TriviaByteLength(t)
  {
    if |t| > 0 {
      WriteTriviaLength(t[1..]);
    }
  }

  lemma {:induction false} TriviaByteLengthAppend(a: Trivia, b: Trivia)
    ensures TriviaByteLength(a + b) == TriviaByteLength(a) + TriviaByteLength(b)
  {
    if |a| > 0 {
      assert (a + b)[1..] == a[1..] + b;
      TriviaByteLengthAppend(a[1..], b);
    } else {
      assert a + b == b;
    }
  }

  lemma {:induction false} WriteTriviaAppend(a: Trivia, b: Trivia)
    ensures WriteTrivia(a + b) == WriteTrivia(a) + WriteTrivia(b)
  {
    if |a| > 0 {
      assert (a + b)[1..] == a[1..] + b;
      WriteTriviaAppend(a[1..], b);
    } else {
      assert a + b == b;
    }
  }
}

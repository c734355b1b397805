/**
 * The raw syntax tree: an immutable tagged union of parsed tokens (one slice
 * of source text with the token text marked inside it), materialized tokens
 * (token text plus decomposed trivia pieces) and layout nodes (a syntax kind
 * and an ordered sequence of optional children, with three values cached at
 * construction: byte length, descendant count and the error flag).
 *
 * Arena ownership is not modelled: nodes are plain values, so structural
 * sharing is simply the reuse of values.
 */
module Raw {
  import opened Common
  import opened Kinds
  import opened Trivia

  /** `SourcePresence`. */
  datatype SourcePresence = Present | Missing

  /** `RawSyntaxData.Payload`. */
  datatype RawSyntax =
    | ParsedToken(tokenKind: TokenKind, wholeText: Bytes, textStart: nat, textEnd: nat)
    | MaterializedToken(tokenKind: TokenKind, tokenText: Bytes, triviaPieces: Trivia,
                        numLeadingTrivia: nat, tokenByteLength: nat)
    | Layout(kind: SyntaxKind, layout: seq<Option<RawSyntax>>, layoutByteLength: nat,
             descendantCount: nat, hasErrorFlag: bool)

  // ---------------------------------------------------------------------------
  // Accessors

  /** `kind`: every token payload reports the `token` kind. */
  function Kind(n: RawSyntax): (k: SyntaxKind)
    ensures !n.Layout? ==> k == Token
    ensures n.Layout? ==> k == n.kind
  {
    match n
    case ParsedToken(_, _, _, _) => Token
    case MaterializedToken(_, _, _, _, _) => Token
    case Layout(k, _, _, _, _) => k
  }

  predicate IsToken(n: RawSyntax)
  {
    Kind(n) == Token
  }

  predicate IsCollection(n: RawSyntax)
  {
    IsSyntaxCollection(Kind(n))
  }

  predicate IsUnknown(n: RawSyntax)
  {
    IsUnknownKind(Kind(n))
  }

  /** `children`: tokens have none. */
  function Children(n: RawSyntax): (cs: seq<Option<RawSyntax>>)
    ensures !n.Layout? ==> cs == []
  {
    match n
    case Layout(_, cs, _, _, _) => cs
    case _ => []
  }

  function NumberOfChildren(n: RawSyntax): nat
  {
    |Children(n)|
  }

  /** `child(at:)`: the child in slot `i`, absent when the slot holds no node. */
  function Child(n: RawSyntax, i: nat): (r: Option<RawSyntax>)
    requires i < NumberOfChildren(n)
    ensures r.Some? ==> r.value < n
  {
    Children(n)[i]
  }

  /** `totalNodes`: tokens count as one node, layouts as their descendants plus themselves. */
  function TotalNodes(n: RawSyntax): (r: nat)
    ensures r >= 1
    ensures !n.Layout? ==> r == 1
  {
    match n
    case Layout(_, _, _, dc, _) => dc + 1
    case _ => 1
  }

  /** `byteLength`. */
  function ByteLength(n: RawSyntax): nat
  {
    match n
    case ParsedToken(_, w, _, _) => |w|
    case MaterializedToken(_, _, _, _, bl) => bl
    case Layout(_, _, bl, _, _) => bl
  }

  /**
   * `presence`: a node is present when it has text, when it is a collection
   * or unknown node, or when it is an end-of-file or string-segment token.
   * A layout node of kind `token` would make the original crash here.
   */
  function Presence(n: RawSyntax): SourcePresence
    requires n.Layout? ==> n.kind != Token
  {
    if ByteLength(n) != 0 then Present
    else if IsCollection(n) || IsUnknown(n) then Present
    else if IsToken(n) && (n.tokenKind == Eof || n.tokenKind == StringSegment) then Present
    else Missing
  }

  /** `SyntaxKind.hasError`: unexpected-node wrappers and missing-node kinds are errors by themselves. */
  predicate KindHasError(k: SyntaxKind)
  {
    k == UnexpectedNodes || IsMissingKind(k)
  }

  /** `recursiveFlags.contains(.hasError)`: a token carries it iff it is missing. */
  predicate HasError(n: RawSyntax)
  {
    match n
    case Layout(_, _, _, _, flag) => flag
    case _ => Presence(n) == Missing
  }

  // ---------------------------------------------------------------------------
  // The values `makeLayout` caches, over the present children

  function ChildByteLength(o: Option<RawSyntax>): nat
  {
    if o.Some? then ByteLength(o.value) else 0
  }

  function ChildrenByteLength(cs: seq<Option<RawSyntax>>): nat
  {
    if |cs| == 0 then 0 else ChildByteLength(cs[0]) + ChildrenByteLength(cs[1..])
  }

  function ChildTotalNodes(o: Option<RawSyntax>): nat
  {
    if o.Some? then TotalNodes(o.value) else 0
  }

  function ChildrenTotalNodes(cs: seq<Option<RawSyntax>>): nat
  {
    if |cs| == 0 then 0 else ChildTotalNodes(cs[0]) + ChildrenTotalNodes(cs[1..])
  }

  predicate ChildHasError(o: Option<RawSyntax>)
  {
    o.Some? && HasError(o.value)
  }

  /** Some present child carries the error flag. */
  predicate ChildrenHaveError(cs: seq<Option<RawSyntax>>)
    ensures ChildrenHaveError(cs) <==> exists i :: 0 <= i < |cs| && ChildHasError(cs[i])
  {
    if |cs| == 0 then false
    else
      assert forall i :: 1 <= i < |cs| ==> cs[i] == cs[1..][i - 1];
      ChildHasError(cs[0]) || ChildrenHaveError(cs[1..])
  }

  lemma {:induction false} ChildrenByteLengthAppend(a: seq<Option<RawSyntax>>, b: seq<Option<RawSyntax>>)
    ensures ChildrenByteLength(a + b) == ChildrenByteLength(a) + ChildrenByteLength(b)
  {
    if |a| == 0 {
      assert a + b == b;
    } else {
      assert (a + b)[1..] == a[1..] + b;
      ChildrenByteLengthAppend(a[1..], b);
    }
  }

  lemma {:induction false} ChildrenTotalNodesAppend(a: seq<Option<RawSyntax>>, b: seq<Option<RawSyntax>>)
    ensures ChildrenTotalNodes(a + b) == ChildrenTotalNodes(a) + ChildrenTotalNodes(b)
  {
    if |a| == 0 {
      assert a + b == b;
    } else {
      assert (a + b)[1..] == a[1..] + b;
      ChildrenTotalNodesAppend(a[1..], b);
    }
  }

  // ---------------------------------------------------------------------------
  // Layout factories

  /**
   * `makeLayout`: a layout node over `cs` whose byte length, descendant count
   * and error flag are aggregated over the present children. The kind should
   * not be `token`. Kind-specific shape validation is not modelled.
   */
  function MakeLayout(k: SyntaxKind, cs: seq<Option<RawSyntax>>): (r: RawSyntax)
    ensures r.Layout? && Kind(r) == k && Children(r) == cs
    ensures HasError(r) <==> KindHasError(k) || exists i :: 0 <= i < |cs| && ChildHasError(cs[i])
  {
    Layout(k, cs, ChildrenByteLength(cs), ChildrenTotalNodes(cs), KindHasError(k) || ChildrenHaveError(cs))
  }

  /** `makeEmptyLayout`: a layout node without children. */
  function MakeEmptyLayout(k: SyntaxKind): (r: RawSyntax)
    ensures ByteLength(r) == 0 && TotalNodes(r) == 1 && NumberOfChildren(r) == 0
    ensures HasError(r) <==> KindHasError(k)
  {
    Layout(k, [], 0, 0, KindHasError(k))
  }

  /** The empty layout is the layout of no children. */
  lemma EmptyLayoutIsLayoutOfNothing(k: SyntaxKind)
    ensures MakeEmptyLayout(k) == MakeLayout(k, [])
  {
  }

  /** An empty layout is present exactly when its kind is a collection or unknown kind. */
  lemma EmptyLayoutPresence(k: SyntaxKind)
    requires k != Token
    ensures Presence(MakeEmptyLayout(k)) == Present <==> IsSyntaxCollection(k) || IsUnknownKind(k)
  {
  }

  /**
   * The aggregation loop of `makeLayout`: walks the children once, summing
   * byte lengths and node counts and or-ing error flags of present children.
   * It computes exactly the node `MakeLayout` describes.
   */
  method AccumulateLayout(k: SyntaxKind, cs: seq<Option<RawSyntax>>) returns (r: RawSyntax)
    ensures r == MakeLayout(k, cs)
  {
    var byteLength: nat := 0;
    var descendantCount: nat := 0;
    var hasError := KindHasError(k);
    var i := 0;
    while i < |cs|
      invariant 0 <= i <= |cs|
      invariant byteLength == ChildrenByteLength(cs[..i])
      invariant descendantCount == ChildrenTotalNodes(cs[..i])
      invariant hasError == (KindHasError(k) || ChildrenHaveError(cs[..i]))
    {
      assert cs[..i + 1] == cs[..i] + [cs[i]];
      ChildrenByteLengthAppend(cs[..i], [cs[i]]);
      ChildrenTotalNodesAppend(cs[..i], [cs[i]]);
      if cs[i].Some? {
        var node := cs[i].value;
        byteLength := byteLength + ByteLength(node);
        descendantCount := descendantCount + TotalNodes(node);
        hasError := hasError || HasError(node);
      }
      assert ChildHasError(cs[i]) ==> ChildHasError(cs[..i + 1][i]);
      assert forall j :: 0 <= j < i ==> cs[..i][j] == cs[..i + 1][j];
      i := i + 1;
    }
    assert cs[..i] == cs;
    r := Layout(k, cs, byteLength, descendantCount, hasError);
  }

  // ---------------------------------------------------------------------------
  // Well-formedness: what every node built through the factories satisfies

  /**
   * A parsed token's text range lies inside its whole text; a materialized
   * token's leading-piece count fits its pieces and its byte length is its
   * text plus its trivia; a layout node is not of kind `token`, its children
   * are well formed and its caches are what `makeLayout` computes.
   */
  predicate WellFormed(n: RawSyntax)
    decreases n
  {
    match n
    case ParsedToken(_, w, s, e) => s <= e <= |w|
    case MaterializedToken(_, text, pieces, nl, bl) =>
      nl <= |pieces| && bl == |text| + TriviaByteLength(pieces)
    case Layout(k, cs, _, _, _) =>
      k != Token && ChildrenWellFormed(cs) && n == MakeLayout(k, cs)
  }

  predicate ChildWellFormed(o: Option<RawSyntax>)
    decreases o
  {
    match o
    case None => true
    case Some(c) => WellFormed(c)
  }

  predicate ChildrenWellFormed(cs: seq<Option<RawSyntax>>)
    decreases cs
  {
    forall i :: 0 <= i < |cs| ==> ChildWellFormed(cs[i])
  }

  predicate IsTokenPayload(n: RawSyntax)
  {
    n.ParsedToken? || n.MaterializedToken?
  }

  // ---------------------------------------------------------------------------
  // Token views

  /** The token's own text, without trivia. */
  function TokenText(n: RawSyntax): Bytes
    requires IsTokenPayload(n) && WellFormed(n)
  {
    match n
    case ParsedToken(_, w, s, e) => w[s..e]
    case MaterializedToken(_, text, _, _, _) => text
  }

  /** A parsed token's leading trivia text: the whole text before the token range. */
  function LeadingTriviaText(n: RawSyntax): Bytes
    requires n.ParsedToken? && WellFormed(n)
  {
    n.wholeText[..n.textStart]
  }

  /** A parsed token's trailing trivia text: the whole text after the token range. */
  function TrailingTriviaText(n: RawSyntax): Bytes
    requires n.ParsedToken? && WellFormed(n)
  {
    n.wholeText[n.textEnd..]
  }

  /** A materialized token's leading pieces: the first `numLeadingTrivia` pieces. */
  function LeadingPieces(n: RawSyntax): Trivia
    requires n.MaterializedToken? && WellFormed(n)
  {
    n.triviaPieces[..n.numLeadingTrivia]
  }

  /** A materialized token's trailing pieces: the pieces after the leading ones. */
  function TrailingPieces(n: RawSyntax): Trivia
    requires n.MaterializedToken? && WellFormed(n)
  {
    n.triviaPieces[n.numLeadingTrivia..]
  }

  /** A parsed token's text splits into leading trivia, token text and trailing trivia, and its length is the whole text's. */
  lemma ParsedTokenPartition(n: RawSyntax)
    requires n.ParsedToken? && WellFormed(n)
    ensures LeadingTriviaText(n) + TokenText(n) + TrailingTriviaText(n) == n.wholeText
    ensures ByteLength(n) == |n.wholeText|
  {
    assert n.wholeText == n.wholeText[..n.textStart] + n.wholeText[n.textStart..n.textEnd] + n.wholeText[n.textEnd..];
  }

  /** A materialized token's pieces split into its leading and trailing pieces. */
  lemma MaterializedTokenPartition(n: RawSyntax)
    requires n.MaterializedToken? && WellFormed(n)
    ensures LeadingPieces(n) + TrailingPieces(n) == n.triviaPieces
    ensures |LeadingPieces(n)| == n.numLeadingTrivia
  {
  }

  /** `leadingTriviaByteLength` of a token view. */
  function TokenLeadingTriviaByteLength(n: RawSyntax): nat
    requires IsTokenPayload(n) && WellFormed(n)
  {
    match n
    case ParsedToken(_, _, s, _) => s
    case MaterializedToken(_, _, _, _, _) => TriviaByteLength(LeadingPieces(n))
  }

  /** `trailingTriviaByteLength` of a token view. */
  function TokenTrailingTriviaByteLength(n: RawSyntax): nat
    requires IsTokenPayload(n) && WellFormed(n)
  {
    match n
    case ParsedToken(_, w, _, e) => |w| - e
    case MaterializedToken(_, _, _, _, _) => TriviaByteLength(TrailingPieces(n))
  }

  /** A token's leading and trailing trivia fit inside the token. */
  lemma TokenTriviaWithin(n: RawSyntax)
    requires IsTokenPayload(n) && WellFormed(n)
    ensures TokenLeadingTriviaByteLength(n) + TokenTrailingTriviaByteLength(n) <= ByteLength(n)
  {
    if n.MaterializedToken? {
      MaterializedTokenPartition(n);
      TriviaByteLengthAppend(LeadingPieces(n), TrailingPieces(n));
    }
  }

  // ---------------------------------------------------------------------------
  // Token factories

  /** `parsedToken`: a token over `wholeText` whose own text is `wholeText[textStart..textEnd]`. */
  function MakeParsedToken(k: TokenKind, wholeText: Bytes, textStart: nat, textEnd: nat): (r: RawSyntax)
    requires textStart <= textEnd <= |wholeText|
    ensures WellFormed(r) && IsToken(r) && r.tokenKind == k
    ensures ByteLength(r) == |wholeText| && Write(r) == wholeText
    ensures TokenText(r) == wholeText[textStart..textEnd]
  {
    ParsedToken(k, wholeText, textStart, textEnd)
  }

  /**
   * `makeRawTriviaPieces`: lays leading then trailing pieces out in one
   * buffer while summing their byte lengths.
   */
  method MakeRawTriviaPieces(leading: Trivia, trailing: Trivia) returns (pieces: Trivia, byteLength: nat)
    ensures pieces == leading + trailing
    ensures byteLength == TriviaByteLength(leading) + TriviaByteLength(trailing)
  {
    TriviaByteLengthAppend(leading, trailing);
    var all := leading + trailing;
    if |all| == 0 {
      return [], 0;
    }
    pieces := [];
    byteLength := 0;
    var i := 0;
    while i < |all|
      invariant 0 <= i <= |all|
      invariant pieces == all[..i]
      invariant byteLength + TriviaByteLength(all[i..]) == TriviaByteLength(all)
    {
      TriviaByteLengthStep(all, i);
      assert all[..i + 1] == all[..i] + [all[i]];
      byteLength := byteLength + PieceByteLength(all[i]);
      pieces := pieces + [all[i]];
      i := i + 1;
    }
    assert all[..i] == all;
  }

  /** Summing the byte lengths from piece `i` on is piece `i`'s length plus the rest. */
  lemma TriviaByteLengthStep(t: Trivia, i: nat)
    requires i < |t|
    ensures TriviaByteLength(t[i..]) == PieceByteLength(t[i]) + TriviaByteLength(t[i + 1..])
  {
    assert t[i..][0] == t[i] && t[i..][1..] == t[i + 1..];
  }

  /**
   * `makeMaterializedToken`: `text` is the token text the kind decomposes to;
   * a missing token gets no text. The byte length is the text's plus all
   * trivia pieces'.
   */
  function MakeMaterializedToken(k: TokenKind, text: Bytes, leading: Trivia, trailing: Trivia,
                                 presence: SourcePresence): (r: RawSyntax)
    ensures r.MaterializedToken? && WellFormed(r) && r.tokenKind == k
    ensures LeadingPieces(r) == leading && TrailingPieces(r) == trailing
    ensures TokenText(r) == (if presence == Missing then [] else text)
    ensures ByteLength(r) == |TokenText(r)| + TriviaByteLength(leading) + TriviaByteLength(trailing)
    ensures Write(r) == WriteTrivia(leading) + TokenText(r) + WriteTrivia(trailing)
  {
    var tokenText: Bytes := if presence == Missing then [] else text;
    TriviaByteLengthAppend(leading, trailing);
    assert (leading + trailing)[..|leading|] == leading;
    assert (leading + trailing)[|leading|..] == trailing;
    MaterializedToken(k, tokenText, leading + trailing, |leading|,
                      |tokenText| + TriviaByteLength(leading + trailing))
  }

  /** The UTF-8 encoding of an ASCII spelling: each character's code point, as one byte. */
  function AsciiBytes(s: string): (r: Bytes)
    ensures |r| == |s|
  {
    seq(|s|, i requires 0 <= i < |s| => (s[i] as int) % 128)
  }

  /** Kinds whose text is fixed by the kind itself: keywords and punctuation. */
  predicate SpellsItself(k: TokenKind)
  {
    k.Kw? || k == LeftParen || k == RightParen || k == LeftBrace || k == RightBrace || k == Comma || k == Colon
  }

  /**
   * The text `makeMaterializedToken` gives a present token of kind `k` whose
   * old text was `own`: `decomposeToRaw` yields the spelling of a keyword and
   * the text of an identifier, literal or string segment; punctuation falls
   * back to `defaultText`, and end-of-file has no text.
   */
  function SpelledText(k: TokenKind, own: Bytes): (r: Bytes)
    ensures SpellsItself(k) ==> |r| > 0
    ensures !SpellsItself(k) ==> r == if k == Eof then [] else own
  {
    match k
    case Kw(kw) => AsciiBytes(KeywordSpelling(kw))
    case LeftParen => [0x28]
    case RightParen => [0x29]
    case LeftBrace => [0x7B]
    case RightBrace => [0x7D]
    case Comma => [0x2C]
    case Colon => [0x3A]
    case Eof => []
    case _ => own
  }

  /** A keyword or punctuation token is spelled the same whatever text it had, even none. */
  lemma SpellingIgnoresOldText(k: TokenKind, a: Bytes, b: Bytes)
    requires SpellsItself(k)
    ensures SpelledText(k, a) == SpelledText(k, b)
  {
  }

  /**
   * `makeMissingToken`: a token with no text and no trivia. It is missing,
   * and so carries the error flag, unless it is an end-of-file or
   * string-segment token.
   */
  function MakeMissingToken(k: TokenKind): (r: RawSyntax)
    ensures WellFormed(r) && IsToken(r) && r.tokenKind == k
    ensures ByteLength(r) == 0 && Write(r) == []
    ensures Presence(r) == Missing <==> k != Eof && k != StringSegment
    ensures HasError(r) <==> k != Eof && k != StringSegment
  {
    MaterializedToken(k, [], [], 0, 0)
  }

  // ---------------------------------------------------------------------------
  // Writing source text

  /**
   * `write(to:)`: a parsed token writes its whole text verbatim; a
   * materialized token its leading pieces, text and trailing pieces; a layout
   * node its present children in order.
   */
  function Write(n: RawSyntax): Bytes
    requires WellFormed(n)
    decreases n
  {
    match n
    case ParsedToken(_, w, _, _) => w
    case MaterializedToken(_, text, _, _, _) =>
      WriteTrivia(LeadingPieces(n)) + text + WriteTrivia(TrailingPieces(n))
    case Layout(_, cs, _, _, _) => WriteChildren(cs)
  }

  function WriteChild(o: Option<RawSyntax>): Bytes
    requires ChildWellFormed(o)
    decreases o
  {
    match o
    case None => []
    case Some(c) => Write(c)
  }

  function WriteChildren(cs: seq<Option<RawSyntax>>): Bytes
    requires ChildrenWellFormed(cs)
    decreases cs
  {
    if |cs| == 0 then [] else WriteChild(cs[0]) + WriteChildren(cs[1..])
  }

  /** A layout written child by child: the first child, then the rest. */
  lemma WriteChildrenCons(o: Option<RawSyntax>, cs: seq<Option<RawSyntax>>)
    requires ChildWellFormed(o) && ChildrenWellFormed(cs)
    ensures ChildrenWellFormed([o] + cs)
    ensures WriteChildren([o] + cs) == WriteChild(o) + WriteChildren(cs)
  {
    assert ([o] + cs)[1..] == cs;
    assert forall i :: 0 <= i < |[o] + cs| ==> ([o] + cs)[i] == if i == 0 then o else cs[i - 1];
  }

  lemma {:induction false} WriteChildrenAppend(a: seq<Option<RawSyntax>>, b: seq<Option<RawSyntax>>)
    requires ChildrenWellFormed(a) && ChildrenWellFormed(b)
    ensures ChildrenWellFormed(a + b)
    ensures WriteChildren(a + b) == WriteChildren(a) + WriteChildren(b)
  {
    assert forall i :: 0 <= i < |a + b| ==> (a + b)[i] == if i < |a| then a[i] else b[i - |a|];
    if |a| == 0 {
      assert a + b == b;
    } else {
      assert (a + b)[1..] == a[1..] + b;
      assert ChildrenWellFormed(a[1..]);
      WriteChildrenAppend(a[1..], b);
    }
  }

  /** The written text of a well-formed node is exactly `byteLength` bytes long. */
  lemma {:induction false} WrittenLength(n: RawSyntax)
    requires WellFormed(n)
    ensures |Write(n)| == ByteLength(n)
    decreases n
  {
    match n
    case ParsedToken(_, _, _, _) =>
    case MaterializedToken(_, text, pieces, nl, _) =>
      MaterializedTokenPartition(n);
      WriteTriviaLength(LeadingPieces(n));
      WriteTriviaLength(TrailingPieces(n));
      TriviaByteLengthAppend(LeadingPieces(n), TrailingPieces(n));
    case Layout(_, cs, _, _, _) =>
      ChildrenWrittenLength(cs);
  }

  lemma {:induction false} ChildWrittenLength(o: Option<RawSyntax>)
    requires ChildWellFormed(o)
    ensures |WriteChild(o)| == ChildByteLength(o)
    decreases o
  {
    if o.Some? {
      WrittenLength(o.value);
    }
  }

  lemma {:induction false} ChildrenWrittenLength(cs: seq<Option<RawSyntax>>)
    requires ChildrenWellFormed(cs)
    ensures |WriteChildren(cs)| == ChildrenByteLength(cs)
    decreases cs
  {
    if |cs| > 0 {
      assert ChildWellFormed(cs[0]);
      assert ChildrenWellFormed(cs[1..]);
      ChildWrittenLength(cs[0]);
      ChildrenWrittenLength(cs[1..]);
    }
  }

  /** A node that writes any text is present. */
  lemma PresentWhenWritten(n: RawSyntax)
    requires WellFormed(n)
    requires Write(n) != []
    ensures Presence(n) == Present && !(IsTokenPayload(n) && HasError(n))
  {
    WrittenLength(n);
  }

  // ---------------------------------------------------------------------------
  // Reference definitions the caches must agree with

  /** Number of nodes in the subtree, counted one by one. */
  function CountNodes(n: RawSyntax): nat
    decreases n
  {
    match n
    case Layout(_, cs, _, _, _) => 1 + CountChildrenNodes(cs)
    case _ => 1
  }

  function CountChildNodes(o: Option<RawSyntax>): nat
    decreases o
  {
    match o
    case None => 0
    case Some(c) => CountNodes(c)
  }

  function CountChildrenNodes(cs: seq<Option<RawSyntax>>): nat
    decreases cs
  {
    if |cs| == 0 then 0 else CountChildNodes(cs[0]) + CountChildrenNodes(cs[1..])
  }

  /** The cached `totalNodes` of a well-formed node is the number of nodes in its subtree. */
  lemma {:induction false} TotalNodesCountsSubtree(n: RawSyntax)
    requires WellFormed(n)
    ensures TotalNodes(n) == CountNodes(n)
    decreases n
  {
    if n.Layout? {
      ChildrenTotalNodesCount(n.layout);
    }
  }

  lemma {:induction false} ChildTotalNodesCount(o: Option<RawSyntax>)
    requires ChildWellFormed(o)
    ensures ChildTotalNodes(o) == CountChildNodes(o)
    decreases o
  {
    if o.Some? {
      TotalNodesCountsSubtree(o.value);
    }
  }

  lemma {:induction false} ChildrenTotalNodesCount(cs: seq<Option<RawSyntax>>)
    requires ChildrenWellFormed(cs)
    ensures ChildrenTotalNodes(cs) == CountChildrenNodes(cs)
    decreases cs
  {
    if |cs| > 0 {
      assert ChildWellFormed(cs[0]);
      assert ChildrenWellFormed(cs[1..]);
      ChildTotalNodesCount(cs[0]);
      ChildrenTotalNodesCount(cs[1..]);
    }
  }

  /** Some node of the subtree is a missing token or a node whose kind is an error kind. */
  predicate ContainsError(n: RawSyntax)
    decreases n
  {
    match n
    case Layout(k, cs, _, _, _) => KindHasError(k) || ChildrenContainError(cs)
    case _ => Presence(n) == Missing
  }

  predicate ChildContainsError(o: Option<RawSyntax>)
    decreases o
  {
    match o
    case None => false
    case Some(c) => ContainsError(c)
  }

  predicate ChildrenContainError(cs: seq<Option<RawSyntax>>)
    decreases cs
  {
    exists i :: 0 <= i < |cs| && ChildContainsError(cs[i])
  }

  /** The cached error flag of a well-formed node is set iff some node of its subtree is an error. */
  lemma {:induction false} HasErrorIffContainsError(n: RawSyntax)
    requires WellFormed(n)
    ensures HasError(n) <==> ContainsError(n)
    decreases n
  {
    if n.Layout? {
      ChildrenHaveErrorIffContain(n.layout);
    }
  }

  lemma {:induction false} ChildHasErrorIffContains(o: Option<RawSyntax>)
    requires ChildWellFormed(o)
    ensures ChildHasError(o) <==> ChildContainsError(o)
    decreases o
  {
    if o.Some? {
      HasErrorIffContainsError(o.value);
    }
  }

  lemma {:induction false} ChildrenHaveErrorIffContain(cs: seq<Option<RawSyntax>>)
    requires ChildrenWellFormed(cs)
    ensures ChildrenHaveError(cs) <==> ChildrenContainError(cs)
    decreases cs
  {
    forall i | 0 <= i < |cs|
      ensures ChildHasError(cs[i]) <==> ChildContainsError(cs[i])
    {
      assert ChildWellFormed(cs[i]);
      ChildHasErrorIffContains(cs[i]);
    }
  }

  /** Some node of the subtree is a token. */
  predicate ContainsToken(n: RawSyntax)
    decreases n
  {
    match n
    case Layout(_, cs, _, _, _) => ChildrenContainToken(cs)
    case _ => true
  }

  predicate ChildContainsToken(o: Option<RawSyntax>)
    decreases o
  {
    match o
    case None => false
    case Some(c) => ContainsToken(c)
  }

  predicate ChildrenContainToken(cs: seq<Option<RawSyntax>>)
    decreases cs
  {
    exists i :: 0 <= i < |cs| && ChildContainsToken(cs[i])
  }

  /** Only tokens write text: a subtree without tokens writes nothing. */
  lemma {:induction false} NoTokenWritesNothing(n: RawSyntax)
    requires WellFormed(n) && !ContainsToken(n)
    ensures Write(n) == []
    decreases n
  {
    NoTokenChildrenWriteNothing(n.layout);
  }

  lemma {:induction false} NoTokenChildWritesNothing(o: Option<RawSyntax>)
    requires ChildWellFormed(o) && !ChildContainsToken(o)
    ensures WriteChild(o) == []
    decreases o
  {
    if o.Some? {
      NoTokenWritesNothing(o.value);
    }
  }

  lemma {:induction false} NoTokenChildrenWriteNothing(cs: seq<Option<RawSyntax>>)
    requires ChildrenWellFormed(cs) && !ChildrenContainToken(cs)
    ensures WriteChildren(cs) == []
    decreases cs
  {
    if |cs| > 0 {
      assert ChildWellFormed(cs[0]) && !ChildContainsToken(cs[0]);
      assert ChildrenWellFormed(cs[1..]);
      assert !ChildrenContainToken(cs[1..]) by {
        forall i | 0 <= i < |cs[1..]|
          ensures !ChildContainsToken(cs[1..][i])
        {
          assert cs[1..][i] == cs[i + 1];
        }
      }
      NoTokenChildWritesNothing(cs[0]);
      NoTokenChildrenWriteNothing(cs[1..]);
    }
  }

  /** `makeLayout` over well-formed children of a non-token kind gives a well-formed node that writes its children's text. */
  lemma MakeLayoutWellFormed(k: SyntaxKind, cs: seq<Option<RawSyntax>>)
    requires k != Token && ChildrenWellFormed(cs)
    ensures WellFormed(MakeLayout(k, cs))
    ensures Write(MakeLayout(k, cs)) == WriteChildren(cs)
    ensures ByteLength(MakeLayout(k, cs)) == |WriteChildren(cs)|
  {
    ChildrenWrittenLength(cs);
  }
}

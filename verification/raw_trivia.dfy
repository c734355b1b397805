/**
 * Trivia at the edges of a raw tree: locating the first and last token under
 * a traversal policy, the byte lengths of the outermost trivia, and replacing
 * that trivia by rebuilding only the path to the first (last) token.
 *
 * The traversal policy of a view mode (`SyntaxTreeViewMode.shouldTraverse`)
 * is a parameter. Decomposing a parsed token's trivia text into pieces is the
 * lexer's job; it is the parameter `lex`.
 */
module RawTrivia {
  import opened Common
  import opened Kinds
  import opened Trivia
  import opened Raw

  /** Whether a view mode visits a node. */
  type ViewMode = RawSyntax -> bool

  /** The view mode that visits every node. */
  function Everything(n: RawSyntax): bool
  {
    true
  }

  /** A token that is well formed. */
  predicate IsWellFormedToken(t: RawSyntax)
  {
    IsTokenPayload(t) && WellFormed(t)
  }

  // ---------------------------------------------------------------------------
  // First and last token

  /** `firstToken(viewMode:)`: the first visited token, searching children in order. */
  function FirstToken(n: RawSyntax, visit: ViewMode): (r: Option<RawSyntax>)
    ensures r.Some? ==> IsTokenPayload(r.value)
    ensures r.Some? && WellFormed(n) ==> WellFormed(r.value)
    decreases n
  {
    if !visit(n) then None
    else match n
      case Layout(_, cs, _, _, _) => FirstTokenOfChildren(cs, visit)
      case _ => Some(n)
  }

  function FirstTokenOfChild(o: Option<RawSyntax>, visit: ViewMode): (r: Option<RawSyntax>)
    ensures r.Some? ==> IsTokenPayload(r.value)
    ensures r.Some? && ChildWellFormed(o) ==> WellFormed(r.value)
    decreases o
  {
    match o
    case None => None
    case Some(c) => FirstToken(c, visit)
  }

  function FirstTokenOfChildren(cs: seq<Option<RawSyntax>>, visit: ViewMode): (r: Option<RawSyntax>)
    ensures r.Some? ==> IsTokenPayload(r.value)
    ensures r.Some? && ChildrenWellFormed(cs) ==> WellFormed(r.value)
    decreases cs
  {
    if |cs| == 0 then None
    else match FirstTokenOfChild(cs[0], visit)
      case Some(t) => Some(t)
      case None => FirstTokenOfChildren(cs[1..], visit)
  }

  /** `lastToken(viewMode:)`: the last visited token, searching children in reverse order. */
  function LastToken(n: RawSyntax, visit: ViewMode): (r: Option<RawSyntax>)
    ensures r.Some? ==> IsTokenPayload(r.value)
    ensures r.Some? && WellFormed(n) ==> WellFormed(r.value)
    decreases n
  {
    if !visit(n) then None
    else match n
      case Layout(_, cs, _, _, _) => LastTokenOfChildren(cs, visit)
      case _ => Some(n)
  }

  function LastTokenOfChild(o: Option<RawSyntax>, visit: ViewMode): (r: Option<RawSyntax>)
    ensures r.Some? ==> IsTokenPayload(r.value)
    ensures r.Some? && ChildWellFormed(o) ==> WellFormed(r.value)
    decreases o
  {
    match o
    case None => None
    case Some(c) => LastToken(c, visit)
  }

  function LastTokenOfChildren(cs: seq<Option<RawSyntax>>, visit: ViewMode): (r: Option<RawSyntax>)
    ensures r.Some? ==> IsTokenPayload(r.value)
    ensures r.Some? && ChildrenWellFormed(cs) ==> WellFormed(r.value)
    decreases cs
  {
    if |cs| == 0 then None
    else match LastTokenOfChild(cs[|cs| - 1], visit)
      case Some(t) => Some(t)
      case None => LastTokenOfChildren(cs[..|cs| - 1], visit)
  }

  /** Some token of the subtree is reachable through visited nodes only. */
  predicate HasVisitedToken(n: RawSyntax, visit: ViewMode)
    decreases n
  {
    visit(n) &&
    match n
    case Layout(_, cs, _, _, _) => ChildrenHaveVisitedToken(cs, visit)
    case _ => true
  }

  predicate ChildHasVisitedToken(o: Option<RawSyntax>, visit: ViewMode)
    decreases o
  {
    match o
    case None => false
    case Some(c) => HasVisitedToken(c, visit)
  }

  predicate ChildrenHaveVisitedToken(cs: seq<Option<RawSyntax>>, visit: ViewMode)
    decreases cs
  {
    exists i :: 0 <= i < |cs| && ChildHasVisitedToken(cs[i], visit)
  }

  /** Both searches succeed exactly when some visited token exists. */
  lemma {:induction false} TokenFoundIffVisited(n: RawSyntax, visit: ViewMode)
    ensures FirstToken(n, visit).Some? <==> HasVisitedToken(n, visit)
    ensures LastToken(n, visit).Some? <==> HasVisitedToken(n, visit)
    decreases n
  {
    if visit(n) && n.Layout? {
      ChildrenTokenFoundIffVisited(n.layout, visit);
    }
  }

  lemma {:induction false} ChildTokenFoundIffVisited(o: Option<RawSyntax>, visit: ViewMode)
    ensures FirstTokenOfChild(o, visit).Some? <==> ChildHasVisitedToken(o, visit)
    ensures LastTokenOfChild(o, visit).Some? <==> ChildHasVisitedToken(o, visit)
    decreases o
  {
    if o.Some? {
      TokenFoundIffVisited(o.value, visit);
    }
  }

  lemma {:induction false} ChildrenTokenFoundIffVisited(cs: seq<Option<RawSyntax>>, visit: ViewMode)
    ensures FirstTokenOfChildren(cs, visit).Some? <==> ChildrenHaveVisitedToken(cs, visit)
    ensures LastTokenOfChildren(cs, visit).Some? <==> ChildrenHaveVisitedToken(cs, visit)
    decreases cs
  {
    if |cs| > 0 {
      var last := |cs| - 1;
      ChildTokenFoundIffVisited(cs[0], visit);
      ChildTokenFoundIffVisited(cs[last], visit);
      ChildrenTokenFoundIffVisited(cs[1..], visit);
      ChildrenTokenFoundIffVisited(cs[..last], visit);
      if ChildrenHaveVisitedToken(cs, visit) {
        var i :| 0 <= i < |cs| && ChildHasVisitedToken(cs[i], visit);
        if i > 0 {
          assert cs[1..][i - 1] == cs[i];
        }
        if i < last {
          assert cs[..last][i] == cs[i];
        }
      }
      if ChildrenHaveVisitedToken(cs[1..], visit) {
        var i :| 0 <= i < |cs[1..]| && ChildHasVisitedToken(cs[1..][i], visit);
        assert cs[1..][i] == cs[i + 1];
      }
      if ChildrenHaveVisitedToken(cs[..last], visit) {
        var i :| 0 <= i < |cs[..last]| && ChildHasVisitedToken(cs[..last][i], visit);
        assert cs[..last][i] == cs[i];
      }
    }
  }

  /** Under the view mode that visits everything, a visited token is just a token. */
  lemma {:induction false} EverythingVisitsAllTokens(n: RawSyntax)
    ensures HasVisitedToken(n, Everything) <==> ContainsToken(n)
    decreases n
  {
    if n.Layout? {
      forall i | 0 <= i < |n.layout|
        ensures ChildHasVisitedToken(n.layout[i], Everything) <==> ChildContainsToken(n.layout[i])
      {
        if n.layout[i].Some? {
          EverythingVisitsAllTokens(n.layout[i].value);
        }
      }
    }
  }

  /** Searching from the front of `a + b`: `a`'s answer when it has one, otherwise `b`'s. */
  lemma {:induction false} LastTokenOfChildrenCons(cs: seq<Option<RawSyntax>>, visit: ViewMode)
    requires |cs| > 0
    ensures LastTokenOfChildren(cs, visit) ==
              if LastTokenOfChildren(cs[1..], visit).Some? then LastTokenOfChildren(cs[1..], visit)
              else LastTokenOfChild(cs[0], visit)
    decreases |cs|
  {
    var last := |cs| - 1;
    if last > 0 {
      assert cs[1..][|cs[1..]| - 1] == cs[last];
      assert cs[1..][..|cs[1..]| - 1] == cs[..last][1..];
      assert cs[..last][0] == cs[0];
      LastTokenOfChildrenCons(cs[..last], visit);
    } else {
      assert cs[1..] == [];
      assert cs[..last] == [];
    }
  }

  // ---------------------------------------------------------------------------
  // Trivia lengths at the edges of a node

  function LeadingOf(t: Option<RawSyntax>): nat
    requires t.Some? ==> IsWellFormedToken(t.value)
  {
    if t.Some? then TokenLeadingTriviaByteLength(t.value) else 0
  }

  function TrailingOf(t: Option<RawSyntax>): nat
    requires t.Some? ==> IsWellFormedToken(t.value)
  {
    if t.Some? then TokenTrailingTriviaByteLength(t.value) else 0
  }

  /** `leadingTriviaByteLength`: the first visited token's leading trivia, or 0 without one. */
  function LeadingTriviaByteLength(n: RawSyntax, visit: ViewMode): nat
    requires WellFormed(n)
  {
    LeadingOf(FirstToken(n, visit))
  }

  /** `trailingTriviaByteLength`: the last visited token's trailing trivia, or 0 without one. */
  function TrailingTriviaByteLength(n: RawSyntax, visit: ViewMode): nat
    requires WellFormed(n)
  {
    TrailingOf(LastToken(n, visit))
  }

  /** The outermost leading and trailing trivia fit inside the node together. */
  lemma {:induction false} EdgeTriviaWithin(n: RawSyntax, visit: ViewMode)
    requires WellFormed(n)
    ensures LeadingTriviaByteLength(n, visit) + TrailingTriviaByteLength(n, visit) <= ByteLength(n)
    decreases n
  {
    if visit(n) {
      match n
      case Layout(_, cs, _, _, _) =>
        ChildrenEdgeTriviaWithin(cs, visit);
      case _ =>
        TokenTriviaWithin(n);
    }
  }

  lemma {:induction false} ChildEdgeTriviaWithin(o: Option<RawSyntax>, visit: ViewMode)
    requires ChildWellFormed(o)
    ensures LeadingOf(FirstTokenOfChild(o, visit)) + TrailingOf(LastTokenOfChild(o, visit)) <= ChildByteLength(o)
    decreases o
  {
    if o.Some? {
      EdgeTriviaWithin(o.value, visit);
    }
  }

  lemma {:induction false} ChildrenEdgeTriviaWithin(cs: seq<Option<RawSyntax>>, visit: ViewMode)
    requires ChildrenWellFormed(cs)
    ensures LeadingOf(FirstTokenOfChildren(cs, visit)) + TrailingOf(LastTokenOfChildren(cs, visit))
            <= ChildrenByteLength(cs)
    decreases cs
  {
    if |cs| > 0 {
      var rest := cs[1..];
      assert ChildWellFormed(cs[0]);
      assert ChildrenWellFormed(rest);
      ChildEdgeTriviaWithin(cs[0], visit);
      ChildrenEdgeTriviaWithin(rest, visit);
      ChildTokenFoundIffVisited(cs[0], visit);
      LastTokenOfChildrenCons(cs, visit);
    }
  }

  /** `contentByteLength`: the node without its outermost trivia; never negative for a well-formed node. */
  function ContentByteLength(n: RawSyntax, visit: ViewMode): (r: int)
    requires WellFormed(n)
    ensures r >= 0
  {
    EdgeTriviaWithin(n, visit);
    ByteLength(n) - LeadingTriviaByteLength(n, visit) - TrailingTriviaByteLength(n, visit)
  }

  // ---------------------------------------------------------------------------
  // Replacing the outermost trivia

  /** `formLeadingTrivia` of a token view: parsed trivia text is handed to the lexer. */
  function FormLeadingTrivia(t: RawSyntax, lex: Bytes -> Trivia): Trivia
    requires IsWellFormedToken(t)
  {
    if t.ParsedToken? then lex(LeadingTriviaText(t)) else LeadingPieces(t)
  }

  /** `formTrailingTrivia` of a token view. */
  function FormTrailingTrivia(t: RawSyntax, lex: Bytes -> Trivia): Trivia
    requires IsWellFormedToken(t)
  {
    if t.ParsedToken? then lex(TrailingTriviaText(t)) else TrailingPieces(t)
  }

  /**
   * `withLeadingTrivia` of a token view: a materialized token of the same
   * kind, made present with the text its kind spells, the given leading
   * trivia and the old trailing trivia. A missing `)` or keyword thus comes
   * back written out and without error.
   */
  function TokenWithLeadingTrivia(t: RawSyntax, trivia: Trivia, lex: Bytes -> Trivia): (r: RawSyntax)
    requires IsWellFormedToken(t)
    ensures IsWellFormedToken(r) && r.MaterializedToken? && r.tokenKind == t.tokenKind
    ensures TokenText(r) == SpelledText(t.tokenKind, TokenText(t))
    ensures SpellsItself(t.tokenKind) ==> Presence(r) == Present && !HasError(r)
    ensures LeadingPieces(r) == trivia && TrailingPieces(r) == FormTrailingTrivia(t, lex)
    ensures Write(r) == WriteTrivia(trivia) + SpelledText(t.tokenKind, TokenText(t)) + WriteTrivia(FormTrailingTrivia(t, lex))
  {
    MakeMaterializedToken(t.tokenKind, SpelledText(t.tokenKind, TokenText(t)), trivia, FormTrailingTrivia(t, lex), Present)
  }

  /** `withTrailingTrivia` of a token view: the mirror image of `TokenWithLeadingTrivia`. */
  function TokenWithTrailingTrivia(t: RawSyntax, trivia: Trivia, lex: Bytes -> Trivia): (r: RawSyntax)
    requires IsWellFormedToken(t)
    ensures IsWellFormedToken(r) && r.MaterializedToken? && r.tokenKind == t.tokenKind
    ensures TokenText(r) == SpelledText(t.tokenKind, TokenText(t))
    ensures SpellsItself(t.tokenKind) ==> Presence(r) == Present && !HasError(r)
    ensures LeadingPieces(r) == FormLeadingTrivia(t, lex) && TrailingPieces(r) == trivia
    ensures Write(r) == WriteTrivia(FormLeadingTrivia(t, lex)) + SpelledText(t.tokenKind, TokenText(t)) + WriteTrivia(trivia)
  {
    MakeMaterializedToken(t.tokenKind, SpelledText(t.tokenKind, TokenText(t)), FormLeadingTrivia(t, lex), trivia, Present)
  }

  /**
   * `withLeadingTrivia`: a token becomes a materialized token with the new
   * leading trivia; a layout node has its first child that yields a
   * replacement swapped for that replacement. Absent when there is no token.
   */
  function WithLeadingTrivia(n: RawSyntax, trivia: Trivia, lex: Bytes -> Trivia): (r: Option<RawSyntax>)
    requires WellFormed(n)
    ensures r.Some? <==> ContainsToken(n)
    ensures r.Some? ==> WellFormed(r.value) && Kind(r.value) == Kind(n)
    decreases n
  {
    match n
    case Layout(k, cs, _, _, _) =>
      (match ReplaceFirst(cs, trivia, lex)
       case None => None
       case Some((i, c)) =>
         MakeLayoutWellFormed(k, cs[i := Some(c)]);
         Some(MakeLayout(k, cs[i := Some(c)])))
    case _ => Some(TokenWithLeadingTrivia(n, trivia, lex))
  }

  function ChildWithLeadingTrivia(o: Option<RawSyntax>, trivia: Trivia, lex: Bytes -> Trivia): (r: Option<RawSyntax>)
    requires ChildWellFormed(o)
    ensures r.Some? <==> ChildContainsToken(o)
    ensures r.Some? ==> WellFormed(r.value)
    decreases o
  {
    match o
    case None => None
    case Some(c) => WithLeadingTrivia(c, trivia, lex)
  }

  /** The first child, in order, that yields a replacement, with its index. */
  function ReplaceFirst(cs: seq<Option<RawSyntax>>, trivia: Trivia, lex: Bytes -> Trivia)
    : (r: Option<(nat, RawSyntax)>)
    requires ChildrenWellFormed(cs)
    ensures r.None? <==> !ChildrenContainToken(cs)
    ensures r.Some? ==> r.value.0 < |cs| && cs[r.value.0].Some? && WellFormed(r.value.1)
    ensures r.Some? ==> Some(r.value.1) == ChildWithLeadingTrivia(cs[r.value.0], trivia, lex)
    ensures r.Some? ==> forall j :: 0 <= j < r.value.0 ==> !ChildContainsToken(cs[j])
    decreases cs
  {
    if |cs| == 0 then None
    else
      assert ChildWellFormed(cs[0]) && ChildrenWellFormed(cs[1..]);
      assert forall j :: 1 <= j < |cs| ==> cs[j] == cs[1..][j - 1];
      match ChildWithLeadingTrivia(cs[0], trivia, lex)
      case Some(c) => Some((0, c))
      case None =>
        match ReplaceFirst(cs[1..], trivia, lex)
        case None => None
        case Some((i, c)) => Some((i + 1, c))
  }

  /**
   * `withTrailingTrivia`: the mirror image of `WithLeadingTrivia`, replacing
   * the trailing trivia of the last token and searching children in reverse.
   */
  function WithTrailingTrivia(n: RawSyntax, trivia: Trivia, lex: Bytes -> Trivia): (r: Option<RawSyntax>)
    requires WellFormed(n)
    ensures r.Some? <==> ContainsToken(n)
    ensures r.Some? ==> WellFormed(r.value) && Kind(r.value) == Kind(n)
    decreases n
  {
    match n
    case Layout(k, cs, _, _, _) =>
      (match ReplaceLast(cs, trivia, lex)
       case None => None
       case Some((i, c)) =>
         MakeLayoutWellFormed(k, cs[i := Some(c)]);
         Some(MakeLayout(k, cs[i := Some(c)])))
    case _ => Some(TokenWithTrailingTrivia(n, trivia, lex))
  }

  function ChildWithTrailingTrivia(o: Option<RawSyntax>, trivia: Trivia, lex: Bytes -> Trivia): (r: Option<RawSyntax>)
    requires ChildWellFormed(o)
    ensures r.Some? <==> ChildContainsToken(o)
    ensures r.Some? ==> WellFormed(r.value)
    decreases o
  {
    match o
    case None => None
    case Some(c) => WithTrailingTrivia(c, trivia, lex)
  }

  /** The children before the last one: well formed, and holding every token but the last child's. */
  lemma ChildrenBeforeLast(cs: seq<Option<RawSyntax>>)
    requires |cs| > 0 && ChildrenWellFormed(cs)
    ensures ChildWellFormed(cs[|cs| - 1]) && ChildrenWellFormed(cs[..|cs| - 1])
    ensures ChildrenContainToken(cs) <==> ChildrenContainToken(cs[..|cs| - 1]) || ChildContainsToken(cs[|cs| - 1])
    ensures forall j :: 0 <= j < |cs| - 1 ==> cs[..|cs| - 1][j] == cs[j]
  {
    var last := |cs| - 1;
    assert forall j :: 0 <= j < last ==> cs[..last][j] == cs[j];
    if ChildrenContainToken(cs) && !ChildContainsToken(cs[last]) {
      var i :| 0 <= i < |cs| && ChildContainsToken(cs[i]);
      assert cs[..last][i] == cs[i];
    }
  }

  /** The last child that yields a replacement, with its index. */
  function ReplaceLast(cs: seq<Option<RawSyntax>>, trivia: Trivia, lex: Bytes -> Trivia)
    : (r: Option<(nat, RawSyntax)>)
    requires ChildrenWellFormed(cs)
    ensures r.None? <==> !ChildrenContainToken(cs)
    ensures r.Some? ==> r.value.0 < |cs| && cs[r.value.0].Some? && WellFormed(r.value.1)
    ensures r.Some? ==> Some(r.value.1) == ChildWithTrailingTrivia(cs[r.value.0], trivia, lex)
    ensures r.Some? ==> forall j :: r.value.0 < j < |cs| ==> !ChildContainsToken(cs[j])
    decreases cs
  {
    if |cs| == 0 then None
    else
      var last := |cs| - 1;
      ChildrenBeforeLast(cs);
      match ChildWithTrailingTrivia(cs[last], trivia, lex)
      case Some(c) => Some((last, c))
      case None => ReplaceLast(cs[..last], trivia, lex)
  }

  // ---------------------------------------------------------------------------
  // What the replacement does to the tree and to its text

  /**
   * The slot `withLeadingTrivia` rewrites in a layout node: the first child
   * that contains a token. The node is rebuilt, with the same kind, from its
   * children with that one slot replaced by the child's own rewrite.
   */
  function LeadingSlot(n: RawSyntax, trivia: Trivia, lex: Bytes -> Trivia): (i: nat)
    requires WellFormed(n) && n.Layout? && ContainsToken(n)
    ensures i < |n.layout| && n.layout[i].Some?
    ensures WellFormed(n.layout[i].value) && ContainsToken(n.layout[i].value)
    ensures forall j :: 0 <= j < i ==> !ChildContainsToken(n.layout[j])
    ensures WithLeadingTrivia(n, trivia, lex).value
            == MakeLayout(n.kind, n.layout[i := WithLeadingTrivia(n.layout[i].value, trivia, lex)])
  {
    var i := ReplaceFirst(n.layout, trivia, lex).value.0;
    assert ChildWellFormed(n.layout[i]);
    i
  }

  /** The mirror image of `LeadingSlot`: the last child that contains a token. */
  function TrailingSlot(n: RawSyntax, trivia: Trivia, lex: Bytes -> Trivia): (i: nat)
    requires WellFormed(n) && n.Layout? && ContainsToken(n)
    ensures i < |n.layout| && n.layout[i].Some?
    ensures WellFormed(n.layout[i].value) && ContainsToken(n.layout[i].value)
    ensures forall j :: i < j < |n.layout| ==> !ChildContainsToken(n.layout[j])
    ensures WithTrailingTrivia(n, trivia, lex).value
            == MakeLayout(n.kind, n.layout[i := WithTrailingTrivia(n.layout[i].value, trivia, lex)])
  {
    var i := ReplaceLast(n.layout, trivia, lex).value.0;
    assert ChildWellFormed(n.layout[i]);
    i
  }

  /** Children before `i` without tokens do not change where the first token is found. */
  lemma {:induction false} FirstTokenSkipsTokenless(cs: seq<Option<RawSyntax>>, i: nat)
    requires i < |cs| && ChildContainsToken(cs[i])
    requires forall j :: 0 <= j < i ==> !ChildContainsToken(cs[j])
    ensures FirstTokenOfChildren(cs, Everything) == FirstTokenOfChild(cs[i], Everything)
    decreases i
  {
    ChildTokenFoundIffVisited(cs[0], Everything);
    if cs[0].Some? {
      EverythingVisitsAllTokens(cs[0].value);
    }
    if i > 0 {
      assert cs[1..][i - 1] == cs[i];
      FirstTokenSkipsTokenless(cs[1..], i - 1);
    }
  }

  /** Children after `i` without tokens do not change where the last token is found. */
  lemma {:induction false} LastTokenSkipsTokenless(cs: seq<Option<RawSyntax>>, i: nat)
    requires i < |cs| && ChildContainsToken(cs[i])
    requires forall j :: i < j < |cs| ==> !ChildContainsToken(cs[j])
    ensures LastTokenOfChildren(cs, Everything) == LastTokenOfChild(cs[i], Everything)
    decreases |cs|
  {
    var last := |cs| - 1;
    ChildTokenFoundIffVisited(cs[last], Everything);
    if cs[last].Some? {
      EverythingVisitsAllTokens(cs[last].value);
    }
    if i < last {
      assert cs[..last][i] == cs[i];
      LastTokenSkipsTokenless(cs[..last], i);
    }
  }

  /** The text of `cs` is the text before slot `i`, then slot `i`'s, then the text after it. */
  lemma WriteChildrenAround(cs: seq<Option<RawSyntax>>, i: nat)
    requires ChildrenWellFormed(cs) && i < |cs|
    ensures ChildrenWellFormed(cs[..i]) && ChildWellFormed(cs[i]) && ChildrenWellFormed(cs[i + 1..])
    ensures WriteChildren(cs) == WriteChildren(cs[..i]) + (WriteChild(cs[i]) + WriteChildren(cs[i + 1..]))
  {
    var tail := cs[i..];
    assert cs == cs[..i] + tail;
    assert tail[0] == cs[i] && tail[1..] == cs[i + 1..];
    assert ChildrenWellFormed(cs[..i]) && ChildrenWellFormed(tail);
    WriteChildrenAppend(cs[..i], tail);
  }

  /**
   * Replacing slot `i` of `cs`, when no slot before it holds a token: the
   * text before slot `i` is empty in both, and the text after it is shared.
   */
  lemma ReplaceSlotText(cs: seq<Option<RawSyntax>>, i: nat, c: RawSyntax)
    requires ChildrenWellFormed(cs) && i < |cs| && cs[i].Some? && WellFormed(cs[i].value) && WellFormed(c)
    requires forall j :: 0 <= j < i ==> !ChildContainsToken(cs[j])
    ensures ChildrenWellFormed(cs[i := Some(c)]) && ChildrenWellFormed(cs[i + 1..])
    ensures WriteChildren(cs) == Write(cs[i].value) + WriteChildren(cs[i + 1..])
    ensures WriteChildren(cs[i := Some(c)]) == Write(c) + WriteChildren(cs[i + 1..])
  {
    var cs' := cs[i := Some(c)];
    assert ChildrenWellFormed(cs');
    assert cs'[..i] == cs[..i] && cs'[i + 1..] == cs[i + 1..];
    WriteChildrenAround(cs, i);
    WriteChildrenAround(cs', i);
    NoTokenChildrenWriteNothing(cs[..i]);
  }

  /** The mirror image of `ReplaceSlotText`: no slot after `i` holds a token. */
  lemma ReplaceLastSlotText(cs: seq<Option<RawSyntax>>, i: nat, c: RawSyntax)
    requires ChildrenWellFormed(cs) && i < |cs| && cs[i].Some? && WellFormed(cs[i].value) && WellFormed(c)
    requires forall j :: i < j < |cs| ==> !ChildContainsToken(cs[j])
    ensures ChildrenWellFormed(cs[i := Some(c)]) && ChildrenWellFormed(cs[..i])
    ensures WriteChildren(cs) == WriteChildren(cs[..i]) + Write(cs[i].value)
    ensures WriteChildren(cs[i := Some(c)]) == WriteChildren(cs[..i]) + Write(c)
  {
    var cs' := cs[i := Some(c)];
    assert ChildrenWellFormed(cs');
    assert cs'[..i] == cs[..i] && cs'[i + 1..] == cs[i + 1..];
    WriteChildrenAround(cs, i);
    WriteChildrenAround(cs', i);
    var after := cs[i + 1..];
    assert !ChildrenContainToken(after) by {
      forall j | 0 <= j < |after|
        ensures !ChildContainsToken(after[j])
      {
        assert after[j] == cs[i + 1 + j];
      }
    }
    NoTokenChildrenWriteNothing(after);
    assert WriteChild(cs[i]) + [] == WriteChild(cs[i]);
    assert Write(c) + [] == Write(c);
  }

  /** A lossless lexer's pieces write back the text they were formed from. */
  lemma LosslessAt(lex: Bytes -> Trivia, text: Bytes)
    requires Lossless(lex)
    ensures WriteTrivia(lex(text)) == text
  {
  }

  /** `TokenTextAfterLeading` for a parsed token: its whole text from the token on. */
  lemma ParsedTextAfterLeading(n: RawSyntax, lex: Bytes -> Trivia)
    requires n.ParsedToken? && WellFormed(n) && Lossless(lex)
    ensures n.wholeText[n.textStart..] == TokenText(n) + WriteTrivia(lex(TrailingTriviaText(n)))
  {
    LosslessAt(lex, TrailingTriviaText(n));
    DropSplit(n.wholeText, n.textStart, n.textEnd);
  }

  /** `TokenTextAfterLeading` for a materialized token: its written text after the leading pieces. */
  lemma MaterializedTextAfterLeading(n: RawSyntax)
    requires n.MaterializedToken? && WellFormed(n)
    ensures TriviaByteLength(LeadingPieces(n)) <= |Write(n)|
    ensures Write(n)[TriviaByteLength(LeadingPieces(n))..] == n.tokenText + WriteTrivia(TrailingPieces(n))
  {
    var lead, trail := WriteTrivia(LeadingPieces(n)), WriteTrivia(TrailingPieces(n));
    WriteTriviaLength(LeadingPieces(n));
    SeqAssoc(lead, n.tokenText, trail);
    DropFront(lead, n.tokenText + trail);
  }

  /** A token's text after its leading trivia is its token text followed by its re-formed trailing trivia. */
  lemma TokenTextAfterLeading(n: RawSyntax, lex: Bytes -> Trivia)
    requires IsWellFormedToken(n) && Lossless(lex)
    ensures TokenLeadingTriviaByteLength(n) <= |Write(n)|
    ensures DropFirst(Write(n), TokenLeadingTriviaByteLength(n)) == TokenText(n) + WriteTrivia(FormTrailingTrivia(n, lex))
    ensures TokenLeadingTriviaByteLength(n) + |TokenText(n)| <= |Write(n)|
    ensures DropFirst(Write(n), TokenLeadingTriviaByteLength(n) + |TokenText(n)|) == WriteTrivia(FormTrailingTrivia(n, lex))
  {
    if n.ParsedToken? {
      ParsedTextAfterLeading(n, lex);
      assert Write(n) == n.wholeText && TokenLeadingTriviaByteLength(n) == n.textStart;
      assert FormTrailingTrivia(n, lex) == lex(TrailingTriviaText(n));
    } else {
      MaterializedTextAfterLeading(n);
      assert TokenLeadingTriviaByteLength(n) == TriviaByteLength(LeadingPieces(n));
      assert TokenText(n) == n.tokenText && FormTrailingTrivia(n, lex) == TrailingPieces(n);
    }
    SplitAfter(Write(n), TokenLeadingTriviaByteLength(n), TokenText(n), WriteTrivia(FormTrailingTrivia(n, lex)));
  }

  /** `TokenTextBeforeTrailing` for a parsed token: its whole text up to the end of the token. */
  lemma ParsedTextBeforeTrailing(n: RawSyntax, lex: Bytes -> Trivia)
    requires n.ParsedToken? && WellFormed(n) && Lossless(lex)
    ensures DropLast(n.wholeText, |n.wholeText| - n.textEnd) == WriteTrivia(lex(LeadingTriviaText(n))) + TokenText(n)
  {
    LosslessAt(lex, LeadingTriviaText(n));
    TakeSplit(n.wholeText, n.textStart, n.textEnd);
  }

  /** `TokenTextBeforeTrailing` for a materialized token: its written text before the trailing pieces. */
  lemma MaterializedTextBeforeTrailing(n: RawSyntax)
    requires n.MaterializedToken? && WellFormed(n)
    ensures TriviaByteLength(TrailingPieces(n)) <= |Write(n)|
    ensures DropLast(Write(n), TriviaByteLength(TrailingPieces(n))) == WriteTrivia(LeadingPieces(n)) + n.tokenText
  {
    WriteTriviaLength(TrailingPieces(n));
    DropBack(WriteTrivia(LeadingPieces(n)) + n.tokenText, WriteTrivia(TrailingPieces(n)));
  }

  /** A token's text before its trailing trivia is its re-formed leading trivia followed by its token text. */
  lemma TokenTextBeforeTrailing(n: RawSyntax, lex: Bytes -> Trivia)
    requires IsWellFormedToken(n) && Lossless(lex)
    ensures TokenTrailingTriviaByteLength(n) <= |Write(n)|
    ensures DropLast(Write(n), TokenTrailingTriviaByteLength(n))
            == WriteTrivia(FormLeadingTrivia(n, lex)) + TokenText(n)
  {
    if n.ParsedToken? {
      ParsedTextBeforeTrailing(n, lex);
      assert Write(n) == n.wholeText && TokenTrailingTriviaByteLength(n) == |n.wholeText| - n.textEnd;
      assert FormLeadingTrivia(n, lex) == lex(LeadingTriviaText(n));
    } else {
      MaterializedTextBeforeTrailing(n);
      assert TokenTrailingTriviaByteLength(n) == TriviaByteLength(TrailingPieces(n));
      assert TokenText(n) == n.tokenText && FormLeadingTrivia(n, lex) == LeadingPieces(n);
    }
  }

  /** The text of the first token, or nothing when there is none. */
  function FirstTokenText(n: RawSyntax): Bytes
    requires WellFormed(n)
  {
    match FirstToken(n, Everything)
    case Some(t) => TokenText(t)
    case None => []
  }

  /** The text `withLeadingTrivia` gives the first token: what its kind spells. */
  function FirstTokenRespelled(n: RawSyntax): Bytes
    requires WellFormed(n)
  {
    match FirstToken(n, Everything)
    case Some(t) => SpelledText(t.tokenKind, TokenText(t))
    case None => []
  }

  /** Where the first token's text ends in the node's text. */
  function FirstTokenEnd(n: RawSyntax): nat
    requires WellFormed(n)
  {
    LeadingTriviaByteLength(n, Everything) + |FirstTokenText(n)|
  }

  /** The text of the last token, or nothing when there is none. */
  function LastTokenText(n: RawSyntax): Bytes
    requires WellFormed(n)
  {
    match LastToken(n, Everything)
    case Some(t) => TokenText(t)
    case None => []
  }

  /** The text `withTrailingTrivia` gives the last token: what its kind spells. */
  function LastTokenRespelled(n: RawSyntax): Bytes
    requires WellFormed(n)
  {
    match LastToken(n, Everything)
    case Some(t) => SpelledText(t.tokenKind, TokenText(t))
    case None => []
  }

  /** How many bytes from the end of the node's text the last token's text starts. */
  function LastTokenFromEnd(n: RawSyntax): nat
    requires WellFormed(n)
  {
    TrailingTriviaByteLength(n, Everything) + |LastTokenText(n)|
  }

  /** A token is its own first token, and `WithLeadingTrivia` rebuilds it directly. */
  lemma TokenIsItsOwnFirst(n: RawSyntax, trivia: Trivia, lex: Bytes -> Trivia)
    requires IsWellFormedToken(n)
    ensures FirstToken(n, Everything) == Some(n)
    ensures WithLeadingTrivia(n, trivia, lex) == Some(TokenWithLeadingTrivia(n, trivia, lex))
    ensures LeadingTriviaByteLength(n, Everything) == TokenLeadingTriviaByteLength(n)
    ensures FirstTokenEnd(n) == TokenLeadingTriviaByteLength(n) + |TokenText(n)|
  {
  }

  /** A token is its own last token, and `WithTrailingTrivia` rebuilds it directly. */
  lemma TokenIsItsOwnLast(n: RawSyntax, trivia: Trivia, lex: Bytes -> Trivia)
    requires IsWellFormedToken(n)
    ensures LastToken(n, Everything) == Some(n)
    ensures WithTrailingTrivia(n, trivia, lex) == Some(TokenWithTrailingTrivia(n, trivia, lex))
    ensures TrailingTriviaByteLength(n, Everything) == TokenTrailingTriviaByteLength(n)
    ensures LastTokenFromEnd(n) == TokenTrailingTriviaByteLength(n) + |TokenText(n)|
  {
  }

  /** `WithLeadingTriviaText` for a single token. */
  lemma TokenWithLeadingTriviaText(n: RawSyntax, trivia: Trivia, lex: Bytes -> Trivia)
    requires IsWellFormedToken(n) && Lossless(lex)
    ensures FirstToken(n, Everything) == Some(n)
    ensures WithLeadingTrivia(n, trivia, lex) == Some(TokenWithLeadingTrivia(n, trivia, lex))
    ensures LeadingTriviaByteLength(n, Everything) <= FirstTokenEnd(n) <= |Write(n)|
    ensures DropFirst(Write(n), LeadingTriviaByteLength(n, Everything)) == TokenText(n) + DropFirst(Write(n), FirstTokenEnd(n))
    ensures Write(TokenWithLeadingTrivia(n, trivia, lex))
            == WriteTrivia(trivia) + SpelledText(n.tokenKind, TokenText(n)) + DropFirst(Write(n), FirstTokenEnd(n))
  {
    TokenTextAfterLeading(n, lex);
    TokenIsItsOwnFirst(n, trivia, lex);
    var rest := WriteTrivia(FormTrailingTrivia(n, lex));
    assert DropFirst(Write(n), LeadingTriviaByteLength(n, Everything)) == TokenText(n) + rest;
    assert DropFirst(Write(n), FirstTokenEnd(n)) == rest;
  }

  /** `WithTrailingTriviaText` for a single token. */
  lemma TokenWithTrailingTriviaText(n: RawSyntax, trivia: Trivia, lex: Bytes -> Trivia)
    requires IsWellFormedToken(n) && Lossless(lex)
    ensures LastToken(n, Everything) == Some(n)
    ensures WithTrailingTrivia(n, trivia, lex) == Some(TokenWithTrailingTrivia(n, trivia, lex))
    ensures TrailingTriviaByteLength(n, Everything) <= LastTokenFromEnd(n) <= |Write(n)|
    ensures DropLast(Write(n), TrailingTriviaByteLength(n, Everything)) == DropLast(Write(n), LastTokenFromEnd(n)) + TokenText(n)
    ensures Write(TokenWithTrailingTrivia(n, trivia, lex))
            == DropLast(Write(n), LastTokenFromEnd(n)) + SpelledText(n.tokenKind, TokenText(n)) + WriteTrivia(trivia)
  {
    TokenIsItsOwnLast(n, trivia, lex);
    TokenTextBeforeTrailing(n, lex);
    SplitBefore(Write(n), TokenTrailingTriviaByteLength(n), WriteTrivia(FormLeadingTrivia(n, lex)), TokenText(n));
  }

  /**
   * The layout case of `WithLeadingTriviaText`: the node's first token is
   * that of its rewritten child, all text before that child is empty and the
   * text after it is kept.
   */
  lemma LeadingLayoutStep(n: RawSyntax, trivia: Trivia, lex: Bytes -> Trivia)
    requires WellFormed(n) && n.Layout? && ContainsToken(n)
    ensures var i := LeadingSlot(n, trivia, lex);
            var c := n.layout[i].value;
            && ChildrenWellFormed(n.layout[i + 1..])
            && FirstToken(n, Everything) == FirstToken(c, Everything)
            && Write(n) == Write(c) + WriteChildren(n.layout[i + 1..])
            && Write(WithLeadingTrivia(n, trivia, lex).value)
               == Write(WithLeadingTrivia(c, trivia, lex).value) + WriteChildren(n.layout[i + 1..])
  {
    var i := LeadingSlot(n, trivia, lex);
    var cs := n.layout;
    var c' := WithLeadingTrivia(cs[i].value, trivia, lex).value;
    assert WithLeadingTrivia(n, trivia, lex).value == MakeLayout(n.kind, cs[i := Some(c')]);
    FirstTokenSkipsTokenless(cs, i);
    ReplaceSlotText(cs, i, c');
    MakeLayoutWellFormed(n.kind, cs[i := Some(c')]);
  }

  /**
   * The layout case of `WithTrailingTriviaText`: the node's last token is
   * that of its rewritten child, all text after that child is empty and the
   * text before it is kept.
   */
  lemma TrailingLayoutStep(n: RawSyntax, trivia: Trivia, lex: Bytes -> Trivia)
    requires WellFormed(n) && n.Layout? && ContainsToken(n)
    ensures var i := TrailingSlot(n, trivia, lex);
            var c := n.layout[i].value;
            && ChildrenWellFormed(n.layout[..i])
            && LastToken(n, Everything) == LastToken(c, Everything)
            && Write(n) == WriteChildren(n.layout[..i]) + Write(c)
            && Write(WithTrailingTrivia(n, trivia, lex).value)
               == WriteChildren(n.layout[..i]) + Write(WithTrailingTrivia(c, trivia, lex).value)
  {
    var i := TrailingSlot(n, trivia, lex);
    var cs := n.layout;
    var c' := WithTrailingTrivia(cs[i].value, trivia, lex).value;
    assert WithTrailingTrivia(n, trivia, lex).value == MakeLayout(n.kind, cs[i := Some(c')]);
    LastTokenSkipsTokenless(cs, i);
    ReplaceLastSlotText(cs, i, c');
    MakeLayoutWellFormed(n.kind, cs[i := Some(c')]);
  }

  /** Two trees with the same first token agree on everything read off it. */
  lemma SameFirstToken(n: RawSyntax, c: RawSyntax)
    requires WellFormed(n) && WellFormed(c) && FirstToken(n, Everything) == FirstToken(c, Everything)
    ensures LeadingTriviaByteLength(n, Everything) == LeadingTriviaByteLength(c, Everything)
    ensures FirstTokenText(n) == FirstTokenText(c) && FirstTokenRespelled(n) == FirstTokenRespelled(c)
    ensures FirstTokenEnd(n) == FirstTokenEnd(c)
  {
  }

  /** Two trees with the same last token agree on everything read off it. */
  lemma SameLastToken(n: RawSyntax, c: RawSyntax)
    requires WellFormed(n) && WellFormed(c) && LastToken(n, Everything) == LastToken(c, Everything)
    ensures TrailingTriviaByteLength(n, Everything) == TrailingTriviaByteLength(c, Everything)
    ensures LastTokenText(n) == LastTokenText(c) && LastTokenRespelled(n) == LastTokenRespelled(c)
    ensures LastTokenFromEnd(n) == LastTokenFromEnd(c)
  {
  }

  /**
   * Round trip of `withLeadingTrivia` on text: the new tree writes the new
   * trivia, then the first token respelled by its kind, then the old tree's
   * text after that token; in the old text the first token's own text sits
   * right after its leading trivia. Holds when the trivia lexer is lossless.
   */
  lemma {:induction false} WithLeadingTriviaText(n: RawSyntax, trivia: Trivia, lex: Bytes -> Trivia)
    requires WellFormed(n) && ContainsToken(n) && Lossless(lex)
    ensures LeadingTriviaByteLength(n, Everything) <= FirstTokenEnd(n) <= |Write(n)|
    ensures DropFirst(Write(n), LeadingTriviaByteLength(n, Everything))
            == FirstTokenText(n) + DropFirst(Write(n), FirstTokenEnd(n))
    ensures Write(WithLeadingTrivia(n, trivia, lex).value)
            == WriteTrivia(trivia) + FirstTokenRespelled(n) + DropFirst(Write(n), FirstTokenEnd(n))
    decreases n
  {
    if !n.Layout? {
      TokenWithLeadingTriviaText(n, trivia, lex);
    } else {
      var i := LeadingSlot(n, trivia, lex);
      var c := n.layout[i].value;
      var after, wc := WriteChildren(n.layout[i + 1..]), Write(c);
      WithLeadingTriviaText(c, trivia, lex);
      LeadingLayoutStep(n, trivia, lex);
      var l, e := LeadingTriviaByteLength(c, Everything), FirstTokenEnd(c);
      SameFirstToken(n, c);
      PrefixOfConcat(wc, after, l);
      PrefixOfConcat(wc, after, e);
      SeqAssoc(FirstTokenText(c), DropFirst(wc, e), after);
      SeqAssoc(WriteTrivia(trivia) + FirstTokenRespelled(c), DropFirst(wc, e), after);
    }
  }

  /**
   * Round trip of `withTrailingTrivia` on text: the new tree writes the old
   * tree's text up to its last token, then that token respelled by its kind,
   * then the new trivia; in the old text the last token's own text sits
   * right before its trailing trivia. Holds when the trivia lexer is lossless.
   */
  lemma {:induction false} WithTrailingTriviaText(n: RawSyntax, trivia: Trivia, lex: Bytes -> Trivia)
    requires WellFormed(n) && ContainsToken(n) && Lossless(lex)
    ensures TrailingTriviaByteLength(n, Everything) <= LastTokenFromEnd(n) <= |Write(n)|
    ensures DropLast(Write(n), TrailingTriviaByteLength(n, Everything))
            == DropLast(Write(n), LastTokenFromEnd(n)) + LastTokenText(n)
    ensures Write(WithTrailingTrivia(n, trivia, lex).value)
            == DropLast(Write(n), LastTokenFromEnd(n)) + LastTokenRespelled(n) + WriteTrivia(trivia)
    decreases n
  {
    if !n.Layout? {
      TokenWithTrailingTriviaText(n, trivia, lex);
    } else {
      var i := TrailingSlot(n, trivia, lex);
      var c := n.layout[i].value;
      var before, wc := WriteChildren(n.layout[..i]), Write(c);
      WithTrailingTriviaText(c, trivia, lex);
      TrailingLayoutStep(n, trivia, lex);
      var t, e := TrailingTriviaByteLength(c, Everything), LastTokenFromEnd(c);
      SameLastToken(n, c);
      SuffixOfConcat(before, wc, e);
      SuffixOfConcat(before, wc, t);
      SeqAssoc(before, DropLast(wc, e), LastTokenText(c));
      SeqAssoc(before, DropLast(wc, e), LastTokenRespelled(c));
      SeqAssoc(before, DropLast(wc, e) + LastTokenRespelled(c), WriteTrivia(trivia));
    }
  }

  /**
   * When the first token already has the text its kind spells, as every
   * lexed token does, the rewritten tree writes the new trivia followed by
   * the old text without its first token's leading trivia.
   */
  lemma WithLeadingTriviaKeepsText(n: RawSyntax, trivia: Trivia, lex: Bytes -> Trivia)
    requires WellFormed(n) && ContainsToken(n) && Lossless(lex)
    requires FirstTokenRespelled(n) == FirstTokenText(n)
    ensures LeadingTriviaByteLength(n, Everything) <= |Write(n)|
    ensures Write(WithLeadingTrivia(n, trivia, lex).value)
            == WriteTrivia(trivia) + DropFirst(Write(n), LeadingTriviaByteLength(n, Everything))
  {
    WithLeadingTriviaText(n, trivia, lex);
    SeqAssoc(WriteTrivia(trivia), FirstTokenText(n), DropFirst(Write(n), FirstTokenEnd(n)));
  }

  /**
   * When the last token already has the text its kind spells, the rewritten
   * tree writes the old text without its last token's trailing trivia,
   * followed by the new trivia.
   */
  lemma WithTrailingTriviaKeepsText(n: RawSyntax, trivia: Trivia, lex: Bytes -> Trivia)
    requires WellFormed(n) && ContainsToken(n) && Lossless(lex)
    requires LastTokenRespelled(n) == LastTokenText(n)
    ensures TrailingTriviaByteLength(n, Everything) <= |Write(n)|
    ensures Write(WithTrailingTrivia(n, trivia, lex).value)
            == DropLast(Write(n), TrailingTriviaByteLength(n, Everything)) + WriteTrivia(trivia)
  {
    WithTrailingTriviaText(n, trivia, lex);
  }

  /**
   * A missing `)` given new leading trivia comes back present, written as
   * `)`, and without error: the round trip does not keep its empty text.
   */
  lemma MissingParenIsSpelledOut(lex: Bytes -> Trivia)
    ensures var r := WithLeadingTrivia(MakeMissingToken(RightParen), [], lex);
      && HasError(MakeMissingToken(RightParen)) && Write(MakeMissingToken(RightParen)) == []
      && r.Some? && Write(r.value) == [0x29] && !HasError(r.value)
  {
    var t := MakeMissingToken(RightParen);
    var r := TokenWithLeadingTrivia(t, [], lex);
    assert WithLeadingTrivia(t, [], lex) == Some(r);
    assert WriteTrivia([]) == [];
  }
}

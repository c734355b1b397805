/**
 * `parseModifierList` and the productions it calls: a loop over the
 * declaration modifiers in front of a declaration, each becoming a
 * `DeclModifier` node with an optional parenthesized detail, gathered into a
 * `ModifierList` node, or nothing when no modifier is present.
 *
 * Every production here moves the cursor forward over the stream and builds
 * a node that writes back exactly the text it moved over: tokens it could not
 * find are synthesized as missing tokens, which write nothing and set the
 * error flag.
 */
module Modifiers {
  import opened Common
  import opened Kinds
  import opened Raw
  import opened Parsing

  // ---------------------------------------------------------------------------
  // Keyword tables

  /** The access-level keywords handled by `parseAccessLevelModifier`. */
  const AccessLevelKinds: set<TokenKind> := {Kw(Private), Kw(Fileprivate), Kw(Internal), Kw(Public)}

  /** Modifiers that are a single keyword and never carry a detail. */
  const PlainModifierKeywords: set<Keyword> :=
    {Final, Required, Optional, Lazy, Dynamic, Infix, Prefix, Postfix, UnderscoredConsuming,
     Mutating, Nonmutating, Convenience, Override, Weak, Indirect, Isolated, Async, Nonisolated,
     Distributed, UnderscoredConst, UnderscoredLocal, UnderscoredSetterAccess, Reasync}

  /** `DeclarationModifier`: every keyword the modifier loop recognises. */
  const DeclarationModifierKeywords: set<Keyword> :=
    {Private, Fileprivate, Internal, Public, Package, Open, Static, Class, Unowned, Rethrows}
    + PlainModifierKeywords

  /** The branch of the modifier loop's `switch` a token selects. */
  datatype ModifierClass =
    | AccessLevel | PackageAccess | OpenAccess | StaticModifier | ClassModifier
    | UnownedModifier | PlainModifier | NotAModifier

  /** The dispatch of the modifier loop: `rethrows` falls through to the `nil` case. */
  function Classify(k: TokenKind): ModifierClass
  {
    match k
    case Kw(Private) | Kw(Fileprivate) | Kw(Internal) | Kw(Public) => AccessLevel
    case Kw(Package) => PackageAccess
    case Kw(Open) => OpenAccess
    case Kw(Static) => StaticModifier
    case Kw(Class) => ClassModifier
    case Kw(Unowned) => UnownedModifier
    case Kw(Final) | Kw(Required) | Kw(Optional) | Kw(Lazy) | Kw(Dynamic) | Kw(Infix)
       | Kw(Prefix) | Kw(Postfix) | Kw(UnderscoredConsuming) | Kw(Mutating) | Kw(Nonmutating)
       | Kw(Convenience) | Kw(Override) | Kw(Weak) | Kw(Indirect) | Kw(Isolated) | Kw(Async)
       | Kw(Nonisolated) | Kw(Distributed) | Kw(UnderscoredConst) | Kw(UnderscoredLocal)
       | Kw(UnderscoredSetterAccess) | Kw(Reasync) => PlainModifier
    case _ => NotAModifier
  }

  /**
   * The dispatch agrees with the keyword tables: a token selects a modifier
   * branch exactly when it is a declaration-modifier keyword other than
   * `rethrows`, and the plain branch exactly for the plain keywords.
   */
  lemma ClassifyMatchesTables(k: TokenKind)
    ensures Classify(k) != NotAModifier <==> k.Kw? && k.keyword in DeclarationModifierKeywords - {Rethrows}
    ensures Classify(k) == PlainModifier <==> k.Kw? && k.keyword in PlainModifierKeywords
    ensures Classify(k) == AccessLevel <==> k in AccessLevelKinds
  {
  }

  /** Each branch but the plain one names a single keyword or the access-level table. */
  lemma ClassifyInverse(k: TokenKind)
    ensures Classify(k) != NotAModifier ==> k.Kw?
    ensures Classify(k) == AccessLevel ==> k in AccessLevelKinds
    ensures Classify(k) == PackageAccess ==> k == Kw(Package)
    ensures Classify(k) == OpenAccess ==> k == Kw(Open)
    ensures Classify(k) == StaticModifier ==> k == Kw(Static)
    ensures Classify(k) == ClassModifier ==> k == Kw(Class)
    ensures Classify(k) == UnownedModifier ==> k == Kw(Unowned)
  {
  }

  /**
   * Where a modifier starts, stated over the keyword tables: at a modifier
   * keyword other than `rethrows` and `class`, or at `class` when the
   * position after it starts a declaration or holds `override`.
   * `startsDecl` stands for `atStartOfDeclaration`.
   */
  predicate StartsModifier(p: Parser, startsDecl: Parser -> bool)
  {
    && p.pos < |p.tokens|
    && p.tokens[p.pos].kind.Kw?
    && var kw := p.tokens[p.pos].kind.keyword;
       || kw in DeclarationModifierKeywords - {Rethrows, Class}
       || (kw == Class && (startsDecl(Advanced(p)) || At(Advanced(p), Kw(Override))))
  }

  // ---------------------------------------------------------------------------
  // Nodes

  /**
   * A `DeclModifier` node: the name, then the detail. The generated layout
   * also has slots for unexpected tokens around them; nothing here recovers
   * by skipping tokens, so those slots would always be empty and are left out.
   */
  function DeclModifierNode(name: RawSyntax, detail: Option<RawSyntax>): (r: RawSyntax)
    requires WellFormed(name) && ChildWellFormed(detail)
    ensures WellFormed(r) && Kind(r) == DeclModifier
    ensures Children(r) == [Some(name), detail]
    ensures Write(r) == Write(name) + WriteChild(detail)
    ensures HasError(r) <==> HasError(name) || ChildHasError(detail)
  {
    var cs := [Some(name), detail];
    WriteModifierLayout(name, detail);
    MakeLayoutWellFormed(DeclModifier, cs);
    MakeLayout(DeclModifier, cs)
  }

  /** The modifier layout writes its name, then its detail; it has an error exactly where they do. */
  lemma WriteModifierLayout(name: RawSyntax, detail: Option<RawSyntax>)
    requires WellFormed(name) && ChildWellFormed(detail)
    ensures var cs := [Some(name), detail];
      && ChildrenWellFormed(cs)
      && WriteChildren(cs) == Write(name) + WriteChild(detail)
      && ((exists i :: 0 <= i < |cs| && ChildHasError(cs[i])) <==> HasError(name) || ChildHasError(detail))
  {
    WriteChildrenCons(detail, []);
    WriteChildrenCons(Some(name), [detail] + []);
    var cs := [Some(name), detail];
    assert [Some(name)] + ([detail] + []) == cs;
    assert ChildHasError(cs[0]) <==> HasError(name);
    assert ChildHasError(cs[1]) <==> ChildHasError(detail);
  }

  /**
   * A `DeclModifierDetail` node: `(`, the detail token, `)`; as for the
   * modifier node, the always-empty unexpected-token slots are left out.
   */
  function DetailNode(leftParen: RawSyntax, detail: RawSyntax, rightParen: RawSyntax): (r: RawSyntax)
    requires WellFormed(leftParen) && WellFormed(detail) && WellFormed(rightParen)
    ensures WellFormed(r) && Kind(r) == DeclModifierDetail
    ensures Children(r) == [Some(leftParen), Some(detail), Some(rightParen)]
    ensures Write(r) == Write(leftParen) + Write(detail) + Write(rightParen)
    ensures HasError(r) <==> HasError(leftParen) || HasError(detail) || HasError(rightParen)
  {
    var cs := [Some(leftParen), Some(detail), Some(rightParen)];
    WriteDetailLayout(leftParen, detail, rightParen);
    DetailLayoutErrors(leftParen, detail, rightParen);
    MakeLayoutWellFormed(DeclModifierDetail, cs);
    MakeLayout(DeclModifierDetail, cs)
  }

  /** The detail layout writes its three tokens in order. */
  lemma WriteDetailLayout(leftParen: RawSyntax, detail: RawSyntax, rightParen: RawSyntax)
    requires WellFormed(leftParen) && WellFormed(detail) && WellFormed(rightParen)
    ensures var cs := [Some(leftParen), Some(detail), Some(rightParen)];
      && ChildrenWellFormed(cs)
      && WriteChildren(cs) == Write(leftParen) + Write(detail) + Write(rightParen)
  {
    var tail := [Some(detail), Some(rightParen)];
    WriteModifierLayout(detail, Some(rightParen));
    WriteChildrenCons(Some(leftParen), tail);
    assert [Some(leftParen)] + tail == [Some(leftParen), Some(detail), Some(rightParen)];
    SeqAssoc(Write(leftParen), Write(detail), Write(rightParen));
  }

  /** The detail layout has a child in error exactly when one of its three tokens is in error. */
  lemma DetailLayoutErrors(leftParen: RawSyntax, detail: RawSyntax, rightParen: RawSyntax)
    ensures var cs := [Some(leftParen), Some(detail), Some(rightParen)];
      (exists i :: 0 <= i < |cs| && ChildHasError(cs[i])) <==> HasError(leftParen) || HasError(detail) || HasError(rightParen)
  {
    var cs := [Some(leftParen), Some(detail), Some(rightParen)];
    assert ChildHasError(cs[0]) <==> HasError(leftParen);
    assert ChildHasError(cs[1]) <==> HasError(detail);
    assert ChildHasError(cs[2]) <==> HasError(rightParen);
  }

  /** The name slot of a `DeclModifier` node built by `DeclModifierNode`. */
  function Name(m: RawSyntax): RawSyntax
    requires |Children(m)| == 2 && Children(m)[0].Some?
  {
    Children(m)[0].value
  }

  /** The detail slot of a `DeclModifier` node built by `DeclModifierNode`. */
  function Detail(m: RawSyntax): Option<RawSyntax>
    requires |Children(m)| == 2
  {
    Children(m)[1]
  }

  /** The detail token of a `DeclModifierDetail` node built by `DetailNode`. */
  function DetailToken(d: RawSyntax): RawSyntax
    requires |Children(d)| == 3 && Children(d)[1].Some?
  {
    Children(d)[1].value
  }

  /** The closing parenthesis of a `DeclModifierDetail` node built by `DetailNode`. */
  function ClosingParen(d: RawSyntax): RawSyntax
    requires |Children(d)| == 3 && Children(d)[2].Some?
  {
    Children(d)[2].value
  }

  /** A modifier node: a well-formed `DeclModifier` whose name is a token and whose detail, if any, is a detail node. */
  predicate IsDeclModifier(m: RawSyntax)
  {
    && WellFormed(m) && m.Layout? && Kind(m) == DeclModifier
    && |Children(m)| == 2 && Children(m)[0].Some? && IsTokenPayload(Name(m))
    && (Detail(m).Some? ==> Kind(Detail(m).value) == DeclModifierDetail)
  }

  predicate AllDeclModifiers(ms: seq<RawSyntax>)
  {
    forall i :: 0 <= i < |ms| ==> IsDeclModifier(ms[i])
  }

  /**
   * What every production here promises about its result: the cursor moved
   * forward over the same stream and the node writes back exactly the text it
   * moved over.
   */
  predicate Faithful(p: Parser, node: RawSyntax, q: Parser)
  {
    Valid(q) && Advances(p, q) && WellFormed(node) && Write(node) == Consumed(p, q)
  }

  // ---------------------------------------------------------------------------
  // Productions

  /**
   * `parseModifierDetail`: `(`, any one token, `)`; a missing parenthesis is
   * synthesized.
   */
  function ParseModifierDetail(p: Parser): (r: (RawSyntax, Parser))
    requires Valid(p)
    ensures Faithful(p, r.0, r.1) && Kind(r.0) == DeclModifierDetail
  {
    var (leftParen, p1) := Expect(p, LeftParen);
    var (detail, p2) := ConsumeAnyToken(p1);
    var (rightParen, p3) := Expect(p2, RightParen);
    ConsumedChain(p, p1, p2);
    ConsumedChain(p, p2, p3);
    (DetailNode(leftParen, detail, rightParen), p3)
  }

  /**
   * After `(`, a modifier detail holds whatever token came next and moves
   * past both; it is in error exactly when a parenthesis was synthesized.
   */
  lemma ModifierDetailContents(p: Parser)
    requires Valid(p)
    ensures var d := ParseModifierDetail(p).0;
      |Children(d)| == 3 && Children(d)[1].Some? && Children(d)[2].Some?
    ensures var (d, q) := ParseModifierDetail(p);
      At(p, LeftParen) ==> q.pos > p.pos && DetailToken(d) == ConsumeAnyToken(Advanced(p)).0
    ensures var d := ParseModifierDetail(p).0;
      HasError(d) <==> !At(p, LeftParen) || HasError(ClosingParen(d))
  {
    var (leftParen, p1) := Expect(p, LeftParen);
    var (detail, p2) := ConsumeAnyToken(p1);
    var (rightParen, p3) := Expect(p2, RightParen);
    assert ParseModifierDetail(p) == (DetailNode(leftParen, detail, rightParen), p3);
  }

  /** `parseUnownedModifier`: `unowned`, followed by a detail when the next token is `(`. */
  function ParseUnownedModifier(p: Parser): (r: (RawSyntax, Parser))
    requires Valid(p)
    ensures Faithful(p, r.0, r.1) && IsDeclModifier(r.0)
    ensures Name(r.0).tokenKind == Kw(Unowned)
    ensures At(p, Kw(Unowned)) ==> Name(r.0) == Eat(p).0 && (Detail(r.0).Some? <==> At(Advanced(p), LeftParen))
    ensures At(p, Kw(Unowned)) && !At(Advanced(p), LeftParen) ==> r.1 == Advanced(p)
    ensures HasError(r.0) <==> !At(p, Kw(Unowned)) || ChildHasError(Detail(r.0))
  {
    var (keyword, p1) := Expect(p, Kw(Unowned));
    if At(p1, LeftParen) then
      var (detail, p2) := ParseModifierDetail(p1);
      ConsumedChain(p, p1, p2);
      (DeclModifierNode(keyword, Some(detail)), p2)
    else
      (DeclModifierNode(keyword, None), p1)
  }

  /**
   * `parseAccessModifierDetails`: nothing unless the next token is `(`;
   * otherwise `(`, then `set` (synthesized as missing when absent), then `)`
   * (synthesized when absent).
   */
  function ParseAccessModifierDetails(p: Parser): (r: (Option<RawSyntax>, Parser))
    requires Valid(p)
    ensures Valid(r.1) && Advances(p, r.1)
    ensures r.0.None? <==> !At(p, LeftParen)
    ensures r.0.None? ==> r.1 == p
    ensures r.0.Some? ==> Faithful(p, r.0.value, r.1) && Kind(r.0.value) == DeclModifierDetail
  {
    var (leftParen, p1) := ConsumeIf(p, LeftParen);
    if leftParen.None? then (None, p)
    else
      // Without recovery, `canRecoverTo(set)` then `eat`, else a missing `set`, is `expect(set)`.
      var (detail, p2) := Expect(p1, Kw(Set));
      var (rightParen, p3) := Expect(p2, RightParen);
      ConsumedChain(p, p1, p2);
      ConsumedChain(p, p2, p3);
      (Some(DetailNode(leftParen.value, detail, rightParen)), p3)
  }

  /**
   * After `(`, access details hold the `set` token, eaten when present and
   * synthesized as missing otherwise; the detail is in error exactly when
   * `set` or the closing `)` had to be synthesized.
   */
  lemma AccessDetailsSetToken(p: Parser)
    requires Valid(p) && At(p, LeftParen)
    ensures var d := ParseAccessModifierDetails(p).0.value;
      |Children(d)| == 3 && Children(d)[1].Some? && Children(d)[2].Some?
    ensures var d := ParseAccessModifierDetails(p).0.value; var q := Advanced(p);
      && IsTokenPayload(DetailToken(d)) && DetailToken(d).tokenKind == Kw(Set)
      && (At(q, Kw(Set)) ==> DetailToken(d) == Eat(q).0)
      && (!At(q, Kw(Set)) ==> DetailToken(d) == MakeMissingToken(Kw(Set)))
    ensures var d := ParseAccessModifierDetails(p).0.value;
      HasError(d) <==> !At(Advanced(p), Kw(Set)) || HasError(ClosingParen(d))
  {
    var (leftParen, p1) := ConsumeIf(p, LeftParen);
    var (detail, p2) := Expect(p1, Kw(Set));
    var (rightParen, p3) := Expect(p2, RightParen);
    assert ParseAccessModifierDetails(p).0.value == DetailNode(leftParen.value, detail, rightParen);
  }

  /** `parseAccessLevelModifier`: one of `private`, `fileprivate`, `internal`, `public` (default `internal`), then access details. */
  function ParseAccessLevelModifier(p: Parser): (r: (RawSyntax, Parser))
    requires Valid(p)
    ensures Faithful(p, r.0, r.1) && IsDeclModifier(r.0)
    ensures Name(r.0).tokenKind == if AtAny(p, AccessLevelKinds) then CurrentKind(p) else Kw(Internal)
    ensures AtAny(p, AccessLevelKinds) ==> Name(r.0) == Eat(p).0 && (Detail(r.0).Some? <==> At(Advanced(p), LeftParen))
    ensures HasError(r.0) <==> !AtAny(p, AccessLevelKinds) || ChildHasError(Detail(r.0))
  {
    var (name, p1) := ExpectAny(p, AccessLevelKinds, Kw(Internal));
    var (details, p2) := ParseAccessModifierDetails(p1);
    ConsumedChain(p, p1, p2);
    (DeclModifierNode(name, details), p2)
  }

  /** `parsePackageAccessLevelModifier` and `parseOpenAccessLevelModifier`: the keyword `kw`, then access details. */
  function ParseKeywordAccessModifier(p: Parser, kw: Keyword): (r: (RawSyntax, Parser))
    requires Valid(p)
    ensures Faithful(p, r.0, r.1) && IsDeclModifier(r.0)
    ensures Name(r.0).tokenKind == Kw(kw)
    ensures At(p, Kw(kw)) ==> Name(r.0) == Eat(p).0 && (Detail(r.0).Some? <==> At(Advanced(p), LeftParen))
    ensures HasError(r.0) <==> !At(p, Kw(kw)) || ChildHasError(Detail(r.0))
  {
    var (name, p1) := Expect(p, Kw(kw));
    var (details, p2) := ParseAccessModifierDetails(p1);
    ConsumedChain(p, p1, p2);
    (DeclModifierNode(name, details), p2)
  }

  /**
   * Access-level modifiers take their detail from the shared sub-grammar,
   * run right after the keyword, and end where it ends.
   */
  lemma AccessLevelSharesDetails(p: Parser)
    requires Valid(p) && AtAny(p, AccessLevelKinds)
    ensures var (m, q) := ParseAccessLevelModifier(p); var (d, s) := ParseAccessModifierDetails(Advanced(p));
      Detail(m) == d && q == s
  {
    var (name, p1) := ExpectAny(p, AccessLevelKinds, Kw(Internal));
    assert p1 == Advanced(p);
  }

  /** `package` and `open` share the same detail sub-grammar, run right after the keyword. */
  lemma KeywordAccessSharesDetails(p: Parser, kw: Keyword)
    requires Valid(p) && At(p, Kw(kw))
    ensures var (m, q) := ParseKeywordAccessModifier(p, kw); var (d, s) := ParseAccessModifierDetails(Advanced(p));
      Detail(m) == d && q == s
  {
    var (name, p1) := Expect(p, Kw(kw));
    assert p1 == Advanced(p);
  }

  /** A modifier that is its keyword alone: `static`, an accepted `class`, and the plain modifiers. */
  function ParseBareModifier(p: Parser): (r: (RawSyntax, Parser))
    requires Valid(p) && p.pos < |p.tokens|
    ensures Faithful(p, r.0, r.1) && IsDeclModifier(r.0)
    ensures r.1 == Advanced(p) && Name(r.0) == Eat(p).0 && Detail(r.0).None? && !HasError(r.0)
  {
    var (keyword, q) := Eat(p);
    (DeclModifierNode(keyword, None), q)
  }

  /**
   * The branches of the modifier loop whose modifier may carry a detail:
   * access levels, `package`, `open` and `unowned`.
   */
  function ParseDetailedModifier(p: Parser): (r: (RawSyntax, Parser))
    requires Valid(p)
    requires Classify(CurrentKind(p)) in {AccessLevel, PackageAccess, OpenAccess, UnownedModifier}
    ensures Faithful(p, r.0, r.1) && IsDeclModifier(r.0)
    ensures r.1.pos > p.pos && Name(r.0) == Eat(p).0
  {
    ClassifyInverse(CurrentKind(p));
    match Classify(CurrentKind(p))
    case AccessLevel => ParseAccessLevelModifier(p)
    case PackageAccess => ParseKeywordAccessModifier(p, Package)
    case OpenAccess => ParseKeywordAccessModifier(p, Open)
    case UnownedModifier => ParseUnownedModifier(p)
  }

  /** The branches whose modifier is the keyword alone. */
  predicate IsBare(c: ModifierClass)
  {
    c == StaticModifier || c == ClassModifier || c == PlainModifier
  }

  /**
   * The modifier loop's `switch` selects a modifier branch: any branch but
   * the `nil` one, and for `class` only when the lookahead past it starts a
   * declaration or holds `override`.
   */
  predicate Dispatches(p: Parser, startsDecl: Parser -> bool)
  {
    match Classify(CurrentKind(p))
    case NotAModifier => false
    case ClassModifier => p.pos < |p.tokens| && (startsDecl(Advanced(p)) || At(Advanced(p), Kw(Override)))
    case _ => true
  }

  /** The dispatch selects a modifier branch exactly where the keyword tables say a modifier starts. */
  lemma DispatchesIffStartsModifier(p: Parser, startsDecl: Parser -> bool)
    ensures Dispatches(p, startsDecl) <==> StartsModifier(p, startsDecl)
  {
    if p.pos < |p.tokens| {
      var k := p.tokens[p.pos].kind;
      ClassifyMatchesTables(k);
      assert Classify(k) == ClassModifier <==> k == Kw(Class);
    }
  }

  /**
   * One iteration of the modifier loop: the modifier the current token
   * starts and the cursor after it, or nothing when the loop must stop.
   * For `class` the lookahead position is the one just past it.
   */
  function ModifierStep(p: Parser, startsDecl: Parser -> bool): (r: Option<(RawSyntax, Parser)>)
    requires Valid(p)
    ensures r.Some? <==> Dispatches(p, startsDecl)
    ensures r.Some? ==> Valid(r.value.1) && Advances(p, r.value.1) && r.value.1.pos > p.pos
    ensures r.Some? ==> IsDeclModifier(r.value.0)
  {
    ClassifyInverse(CurrentKind(p));
    var c := Classify(CurrentKind(p));
    if c == NotAModifier then None
    else if !IsBare(c) then Some(ParseDetailedModifier(p))
    else if c == ClassModifier && !(startsDecl(Advanced(p)) || At(Advanced(p), Kw(Override))) then None
    else Some(ParseBareModifier(p))
  }

  /** The modifier an iteration parses writes back exactly the text the iteration moved over. */
  lemma StepWritesConsumed(p: Parser, startsDecl: Parser -> bool)
    requires Valid(p) && ModifierStep(p, startsDecl).Some?
    ensures var m := ModifierStep(p, startsDecl).value; Write(m.0) == Consumed(p, m.1)
  {
    ClassifyInverse(CurrentKind(p));
  }

  /**
   * The modifier an iteration parses is named by the keyword the loop
   * dispatched on; a keyword-only modifier moves past exactly that keyword.
   */
  lemma StepNamesItsKeyword(p: Parser, startsDecl: Parser -> bool)
    requires Valid(p) && ModifierStep(p, startsDecl).Some?
    ensures var m := ModifierStep(p, startsDecl).value;
      && p.pos < |p.tokens| && Name(m.0) == Eat(p).0
      && (IsBare(Classify(CurrentKind(p))) ==> m.1 == Advanced(p) && Detail(m.0).None?)
  {
    ClassifyInverse(CurrentKind(p));
  }

  /**
   * `LoopProgressCondition.evaluate`: the first check passes; every later
   * one passes only if the cursor moved since the previous check.
   */
  predicate ProgressGuard(previous: Option<nat>, p: Parser)
  {
    previous.None? || previous.value != p.pos
  }

  /** The children of a modifier list node: every modifier, present. */
  function AsChildren(ms: seq<RawSyntax>): (cs: seq<Option<RawSyntax>>)
    ensures |cs| == |ms| && forall i :: 0 <= i < |ms| ==> cs[i] == Some(ms[i])
  {
    seq(|ms|, i requires 0 <= i < |ms| => Some(ms[i]))
  }

  /**
   * The modifier loop from cursor `p`, the guard last having seen position
   * `previous`: the modifiers it parses and the cursor where it stops. It
   * stops only where no modifier starts, and the modifiers write back exactly
   * the text it moved over.
   */
  function ModifierLoop(p: Parser, startsDecl: Parser -> bool, previous: Option<nat>): (r: (seq<RawSyntax>, Parser))
    requires Valid(p)
    ensures Valid(r.1) && Advances(p, r.1)
    ensures |r.0| == 0 <==> r.1 == p
    decreases |p.tokens| - p.pos
  {
    if !ProgressGuard(previous, p) then ([], p)
    else match ModifierStep(p, startsDecl)
      case None => ([], p)
      case Some((m, q)) =>
        var (rest, s) := ModifierLoop(q, startsDecl, Some(p.pos));
        ([m] + rest, s)
  }

  /**
   * Once its guard lets it start, the loop finds no modifier only where none
   * starts, and it stops only where none starts: the guard never ends it.
   */
  lemma {:induction false} ModifierLoopStopsAtNonModifier(p: Parser, startsDecl: Parser -> bool, previous: Option<nat>)
    requires Valid(p) && ProgressGuard(previous, p)
    ensures var r := ModifierLoop(p, startsDecl, previous);
      && !Dispatches(r.1, startsDecl)
      && (|r.0| == 0 <==> !Dispatches(p, startsDecl))
    decreases |p.tokens| - p.pos
  {
    var step := ModifierStep(p, startsDecl);
    if step.Some? {
      var (m, q) := step.value;
      ModifierLoopStopsAtNonModifier(q, startsDecl, Some(p.pos));
    }
  }

  /** The modifiers the loop parses write back, in order, exactly the text it moved over. */
  lemma {:induction false} ModifierLoopWritesConsumed(p: Parser, startsDecl: Parser -> bool, previous: Option<nat>)
    requires Valid(p)
    ensures var r := ModifierLoop(p, startsDecl, previous);
      ChildrenWellFormed(AsChildren(r.0)) && WriteChildren(AsChildren(r.0)) == Consumed(p, r.1)
    decreases |p.tokens| - p.pos
  {
    var r := ModifierLoop(p, startsDecl, previous);
    if ProgressGuard(previous, p) && ModifierStep(p, startsDecl).Some? {
      var (m, q) := ModifierStep(p, startsDecl).value;
      var rest := ModifierLoop(q, startsDecl, Some(p.pos));
      ModifierLoopWritesConsumed(q, startsDecl, Some(p.pos));
      StepWritesConsumed(p, startsDecl);
      assert r == ([m] + rest.0, rest.1);
      AsChildrenCons(m, rest.0);
      WriteChildrenCons(Some(m), AsChildren(rest.0));
      ConsumedChain(p, q, rest.1);
    }
  }

  /** Everything the loop gathers is a `DeclModifier` node. */
  lemma {:induction false} ModifierLoopParsesModifiers(p: Parser, startsDecl: Parser -> bool, previous: Option<nat>)
    requires Valid(p)
    ensures AllDeclModifiers(ModifierLoop(p, startsDecl, previous).0)
    decreases |p.tokens| - p.pos
  {
    if ProgressGuard(previous, p) && ModifierStep(p, startsDecl).Some? {
      var (m, q) := ModifierStep(p, startsDecl).value;
      var rest := ModifierLoop(q, startsDecl, Some(p.pos)).0;
      ModifierLoopParsesModifiers(q, startsDecl, Some(p.pos));
      assert ModifierLoop(p, startsDecl, previous).0 == [m] + rest;
      AllDeclModifiersCons(m, rest);
    }
  }

  lemma AllDeclModifiersCons(m: RawSyntax, ms: seq<RawSyntax>)
    requires IsDeclModifier(m) && AllDeclModifiers(ms)
    ensures AllDeclModifiers([m] + ms)
  {
    assert forall i :: 0 <= i < |[m] + ms| ==> ([m] + ms)[i] == if i == 0 then m else ms[i - 1];
  }

  lemma AsChildrenCons(m: RawSyntax, ms: seq<RawSyntax>)
    ensures AsChildren([m] + ms) == [Some(m)] + AsChildren(ms)
  {
  }

  /** `RawModifierListSyntax(elements:)`: a collection node over the modifiers. */
  function ModifierListNode(ms: seq<RawSyntax>): (r: RawSyntax)
    requires forall i :: 0 <= i < |ms| ==> WellFormed(ms[i])
    ensures WellFormed(r) && Kind(r) == ModifierList && Children(r) == AsChildren(ms)
    ensures Write(r) == WriteChildren(AsChildren(ms))
    ensures HasError(r) <==> exists i :: 0 <= i < |ms| && HasError(ms[i])
  {
    var cs := AsChildren(ms);
    assert forall i :: 0 <= i < |ms| ==> (ChildHasError(cs[i]) <==> HasError(ms[i]));
    MakeLayoutWellFormed(ModifierList, cs);
    MakeLayout(ModifierList, cs)
  }

  /**
   * `parseModifierList`: runs the modifier loop and returns nothing when it
   * found no modifier, leaving the cursor where it was, or the list of the
   * modifiers found. The cursor ends where no modifier starts, and the list
   * writes back exactly the text the cursor moved over.
   */
  function ParseModifierList(p: Parser, startsDecl: Parser -> bool): (r: (Option<RawSyntax>, Parser))
    requires Valid(p)
    ensures Valid(r.1) && Advances(p, r.1)
    ensures r.0.None? <==> !StartsModifier(p, startsDecl)
    ensures r.0.None? ==> r.1 == p
    ensures !StartsModifier(r.1, startsDecl)
    ensures r.0.Some? ==> Faithful(p, r.0.value, r.1) && Kind(r.0.value) == ModifierList
  {
    var (ms, q) := ModifierLoop(p, startsDecl, None);
    ModifierLoopParsesModifiers(p, startsDecl, None);
    ModifierLoopWritesConsumed(p, startsDecl, None);
    ModifierLoopStopsAtNonModifier(p, startsDecl, None);
    DispatchesIffStartsModifier(p, startsDecl);
    DispatchesIffStartsModifier(q, startsDecl);
    if |ms| == 0 then (None, q) else (Some(ModifierListNode(ms)), q)
  }

  /** A modifier list is never empty, moves the cursor, and holds only modifiers. */
  lemma ModifierListElements(p: Parser, startsDecl: Parser -> bool)
    requires Valid(p)
    ensures var r := ParseModifierList(p, startsDecl);
      r.0.Some? ==>
        && r.1.pos > p.pos
        && |Children(r.0.value)| > 0
        && forall i :: 0 <= i < |Children(r.0.value)| ==>
             Children(r.0.value)[i].Some? && IsDeclModifier(Children(r.0.value)[i].value)
  {
    var (ms, q) := ModifierLoop(p, startsDecl, None);
    ModifierLoopParsesModifiers(p, startsDecl, None);
    if |ms| > 0 {
      var node := ModifierListNode(ms);
      assert ParseModifierList(p, startsDecl) == (Some(node), q);
      assert Children(node) == AsChildren(ms);
    }
  }
}

/** The behaviours the modifier-list production is documented to have, on concrete token shapes. */
module ModifierScenarios {
  import opened Common
  import opened Kinds
  import opened Raw
  import opened Parsing
  import opened Modifiers

  predicate ValidStream(ts: seq<Lexeme>)
  {
    forall i :: 0 <= i < |ts| ==> ValidLexeme(ts[i])
  }

  /** One turn of the modifier loop: a modifier that starts here is followed by the rest of the loop. */
  lemma LoopTurn(p: Parser, startsDecl: Parser -> bool, m: RawSyntax, q: Parser)
    requires Valid(p) && ModifierStep(p, startsDecl) == Some((m, q))
    ensures Valid(q) && q.pos > p.pos
    ensures var rest := ModifierLoop(q, startsDecl, Some(p.pos));
      ModifierLoop(p, startsDecl, None) == ([m] + rest.0, rest.1)
  {
  }

  /** A loop that finds one modifier and then stops builds the list of that modifier alone. */
  lemma SingleModifierList(p: Parser, startsDecl: Parser -> bool, m: RawSyntax, q: Parser)
    requires Valid(p) && ModifierStep(p, startsDecl) == Some((m, q)) && !Dispatches(q, startsDecl)
    ensures WellFormed(m)
    ensures ParseModifierList(p, startsDecl) == (Some(ModifierListNode([m])), q)
    ensures Children(ModifierListNode([m])) == [Some(m)]
    ensures HasError(ModifierListNode([m])) <==> HasError(m)
  {
    SingletonList(m);
    LoopTurn(p, startsDecl, m, q);
    assert ModifierLoop(q, startsDecl, Some(p.pos)) == ([], q);
    assert [m] + [] == [m];
  }

  /** At an access-level keyword the loop parses an access-level modifier. */
  lemma StepAtAccessLevel(p: Parser, startsDecl: Parser -> bool)
    requires Valid(p) && AtAny(p, AccessLevelKinds)
    ensures ModifierStep(p, startsDecl) == Some(ParseAccessLevelModifier(p))
  {
    assert Classify(CurrentKind(p)) == AccessLevel;
    StepTakesDetailedBranch(p, startsDecl);
    DetailedBranchAtAccessLevel(p);
  }

  lemma StepTakesDetailedBranch(p: Parser, startsDecl: Parser -> bool)
    requires Valid(p) && Classify(CurrentKind(p)) == AccessLevel
    ensures ModifierStep(p, startsDecl) == Some(ParseDetailedModifier(p))
  {
  }

  lemma DetailedBranchAtAccessLevel(p: Parser)
    requires Valid(p) && Classify(CurrentKind(p)) == AccessLevel
    ensures ParseDetailedModifier(p) == ParseAccessLevelModifier(p)
  {
  }

  /** The list of one modifier has that modifier as its only child and shares its error flag. */
  lemma SingletonList(m: RawSyntax)
    requires WellFormed(m)
    ensures Children(ModifierListNode([m])) == [Some(m)]
    ensures HasError(ModifierListNode([m])) <==> HasError(m)
  {
    assert AsChildren([m]) == [Some(m)];
  }

  /** `( set )` at position `i` is a complete access detail: all three tokens are consumed and nothing is synthesized. */
  lemma SetDetailConsumed(ts: seq<Lexeme>, i: nat)
    requires ValidStream(ts) && i + 3 <= |ts|
    requires ts[i].kind == LeftParen && ts[i + 1].kind == Kw(Set) && ts[i + 2].kind == RightParen
    ensures var d := ParseAccessModifierDetails(Parser(ts, i));
      d.0.Some? && d.1 == Parser(ts, i + 3) && !HasError(d.0.value)
  {
    var p1 := ConsumeIf(Parser(ts, i), LeftParen).1;
    assert p1 == Parser(ts, i + 1);
    var p2 := Expect(p1, Kw(Set)).1;
    assert p2 == Parser(ts, i + 2);
    var e := Expect(p2, RightParen);
    assert e.1 == Parser(ts, i + 3) && !HasError(e.0);
  }

  /** `class` at the end of the stream, with no declaration after it, does not start a modifier. */
  lemma TrailingClassStops(ts: seq<Lexeme>, startsDecl: Parser -> bool)
    requires ValidStream(ts) && |ts| > 0 && ts[|ts| - 1].kind == Kw(Class)
    requires !startsDecl(Parser(ts, |ts|))
    ensures ModifierStep(Parser(ts, |ts| - 1), startsDecl) == None
    ensures ModifierLoop(Parser(ts, |ts| - 1), startsDecl, Some(0)) == ([], Parser(ts, |ts| - 1))
  {
    assert Advanced(Parser(ts, |ts| - 1)) == Parser(ts, |ts|);
    assert !Dispatches(Parser(ts, |ts| - 1), startsDecl);
  }

  /**
   * `public(set) class` where `class` does not introduce a modifier: the
   * list is `public` with its `(set)` detail, and the cursor stops before
   * `class`, which is left for the declaration.
   */
  lemma PublicSetStopsBeforeClass(ts: seq<Lexeme>, startsDecl: Parser -> bool)
    requires ValidStream(ts) && |ts| == 5
    requires ts[0].kind == Kw(Public) && ts[1].kind == LeftParen && ts[2].kind == Kw(Set)
    requires ts[3].kind == RightParen && ts[4].kind == Kw(Class)
    requires !startsDecl(Parser(ts, 5))
    ensures var r := ParseModifierList(Parser(ts, 0), startsDecl);
      && r.1 == Parser(ts, 4) && r.0.Some? && !HasError(r.0.value)
      && Children(r.0.value) == [Some(ParseAccessLevelModifier(Parser(ts, 0)).0)]
  {
    var p := Parser(ts, 0);
    var m := ParseAccessLevelModifier(p);
    PublicSetModifier(ts);
    StepAtAccessLevel(p, startsDecl);
    assert !Dispatches(Parser(ts, 4), startsDecl) by {
      TrailingClassStops(ts, startsDecl);
    }
    SingleModifierList(p, startsDecl, m.0, m.1);
  }

  /** `public(set)` on its own is one complete, error-free modifier. */
  lemma PublicSetModifier(ts: seq<Lexeme>)
    requires ValidStream(ts) && |ts| >= 4
    requires ts[0].kind == Kw(Public) && ts[1].kind == LeftParen && ts[2].kind == Kw(Set)
    requires ts[3].kind == RightParen
    ensures var m := ParseAccessLevelModifier(Parser(ts, 0));
      m.1 == Parser(ts, 4) && !HasError(m.0) && Detail(m.0).Some?
  {
    SetDetailConsumed(ts, 1);
  }

  /** A declaration keyword such as `func` starts no modifier: no list, and the cursor stays put. */
  lemma FuncStartsNoList(ts: seq<Lexeme>, startsDecl: Parser -> bool)
    requires ValidStream(ts) && |ts| > 0 && ts[0].kind == Kw(Func)
    ensures ParseModifierList(Parser(ts, 0), startsDecl) == (None, Parser(ts, 0))
  {
    FuncDispatchesNothing(Parser(ts, 0), startsDecl);
    DispatchesIffStartsModifier(Parser(ts, 0), startsDecl);
  }

  /** `rethrows` is a modifier keyword the loop refuses: no list, and the cursor stays on it. */
  lemma RethrowsStartsNoList(ts: seq<Lexeme>, startsDecl: Parser -> bool)
    requires ValidStream(ts) && |ts| > 0 && ts[0].kind == Kw(Rethrows)
    ensures ParseModifierList(Parser(ts, 0), startsDecl) == (None, Parser(ts, 0))
  {
    assert Classify(Kw(Rethrows)) == NotAModifier;
    DispatchesIffStartsModifier(Parser(ts, 0), startsDecl);
  }

  lemma FuncDispatchesNothing(p: Parser, startsDecl: Parser -> bool)
    requires At(p, Kw(Func))
    ensures !Dispatches(p, startsDecl)
  {
    assert Classify(Kw(Func)) == NotAModifier;
  }

  /**
   * `private(` at the end of the stream: the detail's `set` and `)` are
   * synthesized as missing tokens, so the modifier carries the error flag and
   * the cursor stops after the two tokens that were there.
   */
  lemma PrivateOpenParenIncomplete(ts: seq<Lexeme>)
    requires ValidStream(ts) && |ts| == 2 && ts[0].kind == Kw(Private) && ts[1].kind == LeftParen
    ensures var m := ParseAccessLevelModifier(Parser(ts, 0));
      && m.1 == Parser(ts, 2) && HasError(m.0) && Detail(m.0).Some?
      && DetailToken(Detail(m.0).value) == MakeMissingToken(Kw(Set))
  {
    var p1 := Parser(ts, 1);
    AccessDetailsSetToken(p1);
    assert !At(Advanced(p1), Kw(Set));
    var d := ParseAccessModifierDetails(p1);
    assert d.1 == Parser(ts, 2) by {
      var p2 := ConsumeIf(p1, LeftParen).1;
      assert p2 == Parser(ts, 2);
      assert Expect(p2, Kw(Set)).1 == p2;
    }
  }

  /** At a keyword-only modifier the loop parses that keyword alone. */
  lemma BareStep(p: Parser, startsDecl: Parser -> bool)
    requires Valid(p) && Dispatches(p, startsDecl) && IsBare(Classify(CurrentKind(p)))
    ensures p.pos < |p.tokens| && ModifierStep(p, startsDecl) == Some(ParseBareModifier(p))
  {
  }

  /** `class` followed by `override` is a modifier by the lookahead. */
  lemma ClassBeforeOverride(p: Parser, startsDecl: Parser -> bool)
    requires Valid(p) && At(p, Kw(Class)) && At(Advanced(p), Kw(Override))
    ensures ModifierStep(p, startsDecl) == Some(ParseBareModifier(p))
  {
    assert Classify(Kw(Class)) == ClassModifier;
    BareStep(p, startsDecl);
  }

  /** `override` is a keyword-only modifier. */
  lemma OverrideStep(p: Parser, startsDecl: Parser -> bool)
    requires Valid(p) && At(p, Kw(Override))
    ensures ModifierStep(p, startsDecl) == Some(ParseBareModifier(p))
  {
    assert Classify(Kw(Override)) == PlainModifier;
    BareStep(p, startsDecl);
  }

  /**
   * `class override func`: `class` is a modifier because `override` follows
   * it, `override` is one too, and the list of the two stops before `func`.
   */
  lemma ClassOverrideFunc(ts: seq<Lexeme>, startsDecl: Parser -> bool)
    requires ValidStream(ts) && |ts| == 3
    requires ts[0].kind == Kw(Class) && ts[1].kind == Kw(Override) && ts[2].kind == Kw(Func)
    ensures var r := ParseModifierList(Parser(ts, 0), startsDecl);
      && r.0.Some? && r.1 == Parser(ts, 2)
      && Children(r.0.value) == [Some(ParseBareModifier(Parser(ts, 0)).0), Some(ParseBareModifier(Parser(ts, 1)).0)]
  {
    var p0, p1, p2 := Parser(ts, 0), Parser(ts, 1), Parser(ts, 2);
    var m0, m1 := ParseBareModifier(p0).0, ParseBareModifier(p1).0;
    ClassBeforeOverride(p0, startsDecl);
    OverrideStep(p1, startsDecl);
    FuncDispatchesNothing(p2, startsDecl);
    TwoModifierLoop(p0, startsDecl, m0, p1, m1, p2);
    ModifierLoopParsesModifiers(p0, startsDecl, None);
    assert ParseModifierList(p0, startsDecl) == (Some(ModifierListNode([m0, m1])), p2);
    assert AsChildren([m0, m1]) == [Some(m0), Some(m1)];
  }

  /** A loop that finds two modifiers in a row and then stops gathers exactly those two. */
  lemma TwoModifierLoop(p: Parser, startsDecl: Parser -> bool, m0: RawSyntax, q: Parser, m1: RawSyntax, s: Parser)
    requires Valid(p) && ModifierStep(p, startsDecl) == Some((m0, q))
    requires Valid(q) && ModifierStep(q, startsDecl) == Some((m1, s)) && !Dispatches(s, startsDecl)
    ensures ModifierLoop(p, startsDecl, None) == ([m0, m1], s)
  {
    LoopTurn(p, startsDecl, m0, q);
    assert ModifierLoop(s, startsDecl, Some(q.pos)) == ([], s);
    assert ModifierLoop(q, startsDecl, Some(p.pos)) == ([m1], s) by {
      assert [m1] + [] == [m1];
    }
    assert [m0] + [m1] == [m0, m1];
  }

  /** Where the list stops, parsing a list again finds nothing and does not move. */
  lemma ModifierListStopsForGood(p: Parser, startsDecl: Parser -> bool)
    requires Valid(p)
    ensures var q := ParseModifierList(p, startsDecl).1;
      ParseModifierList(q, startsDecl) == (None, q)
  {
    var q := ParseModifierList(p, startsDecl).1;
    assert !StartsModifier(q, startsDecl);
  }
}

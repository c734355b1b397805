/**
 * The kind tables the syntax tree and the parser dispatch on. In the original
 * system these are generated from the grammar description; only the members
 * the modelled code looks at are spelled out, the rest is represented by a
 * few representative cases.
 */
module Kinds {

  /** Keywords the modifier-list production can see. */
  datatype Keyword =
    // access levels
    | Private | Fileprivate | Internal | Public | Package | Open
    // context-sensitive modifiers with their own handling
    | Static | Class | Unowned | Rethrows
    // modifiers that never carry a detail
    | Final | Required | Optional | Lazy | Dynamic | Infix | Prefix | Postfix
    | UnderscoredConsuming | Mutating | Nonmutating | Convenience | Override | Weak
    | Indirect | Isolated | Async | Nonisolated | Distributed | UnderscoredConst
    | UnderscoredLocal | UnderscoredSetterAccess | Reasync
    // other keywords: the access-detail keyword and declaration introducers
    | Set | Func | Var | Let | Init | Subscript | Typealias | Struct | Enum
    | Protocol | Extension | Actor | Import

  /** The source spelling of a keyword (`Keyword.defaultText`). */
  function KeywordSpelling(k: Keyword): (s: string)
    ensures |s| > 0
  {
    match k
    case Private => "private"
    case Fileprivate => "fileprivate"
    case Internal => "internal"
    case Public => "public"
    case Package => "package"
    case Open => "open"
    case Static => "static"
    case Class => "class"
    case Unowned => "unowned"
    case Rethrows => "rethrows"
    case Final => "final"
    case Required => "required"
    case Optional => "optional"
    case Lazy => "lazy"
    case Dynamic => "dynamic"
    case Infix => "infix"
    case Prefix => "prefix"
    case Postfix => "postfix"
    case UnderscoredConsuming => "__consuming"
    case Mutating => "mutating"
    case Nonmutating => "nonmutating"
    case Convenience => "convenience"
    case Override => "override"
    case Weak => "weak"
    case Indirect => "indirect"
    case Isolated => "isolated"
    case Async => "async"
    case Nonisolated => "nonisolated"
    case Distributed => "distributed"
    case UnderscoredConst => "_const"
    case UnderscoredLocal => "_local"
    case UnderscoredSetterAccess => "__setter_access"
    case Reasync => "reasync"
    case Set => "set"
    case Func => "func"
    case Var => "var"
    case Let => "let"
    case Init => "init"
    case Subscript => "subscript"
    case Typealias => "typealias"
    case Struct => "struct"
    case Enum => "enum"
    case Protocol => "protocol"
    case Extension => "extension"
    case Actor => "actor"
    case Import => "import"
  }

  /** Raw token kinds (`RawTokenKind`). */
  datatype TokenKind =
    | Kw(keyword: Keyword)
    | Identifier
    | IntegerLiteral
    | LeftParen
    | RightParen
    | LeftBrace
    | RightBrace
    | Comma
    | Colon
    | StringSegment
    | Eof

  /** Syntax kinds of tree nodes (`SyntaxKind`). */
  datatype SyntaxKind =
    | Token
    | UnexpectedNodes
    | ModifierList
    | DeclModifier
    | DeclModifierDetail
    | UnknownKind(name: string)
    | MissingKind(name: string)
    | CollectionKind(name: string)
    | NodeKind(name: string)

  /** `SyntaxKind.isSyntaxCollection`: unexpected-node wrappers and the modifier list are collections. */
  predicate IsSyntaxCollection(k: SyntaxKind)
  {
    k.UnexpectedNodes? || k.ModifierList? || k.CollectionKind?
  }

  /** `SyntaxKind.isUnknown`. */
  predicate IsUnknownKind(k: SyntaxKind)
  {
    k.UnknownKind?
  }

  /** `SyntaxKind.isMissing`: the placeholder kinds for absent declarations, expressions and so on. */
  predicate IsMissingKind(k: SyntaxKind)
  {
    k.MissingKind?
  }
}

/** Token kinds and the token record of the lexical analyser
    (`Token` and the rule names of `AnalizadorLexico.patrones`). */
module Tokens {

  datatype Option<T> = None | Some(value: T)

  /** The name of each rule in the ordered rule table. The first four are
      recognised while scanning but never become tokens. */
  datatype Kind =
    | CommentMulti | Comment | Keyword | Identifier | Number | Str
    | Operator | Delimiter | Whitespace | Newline | Error

  /** An immutable token: its kind, the exact matched text and the line
      counter in effect when its match began. */
  datatype Token = Token(tipo: Kind, valor: string, linea: nat)

  /** The rule name as the source spells it (the `tipo` string). */
  function Name(k: Kind): (r: string)
  {
    match k
    case CommentMulti => "COMMENT_MULTI"
    case Comment => "COMMENT"
    case Keyword => "KEYWORD"
    case Identifier => "IDENTIFIER"
    case Number => "NUMBER"
    case Str => "STRING"
    case Operator => "OPERATOR"
    case Delimiter => "DELIMITER"
    case Whitespace => "WHITESPACE"
    case Newline => "NEWLINE"
    case Error => "ERROR"
  }

  /** Kinds whose matches are appended to the token list; whitespace,
      newlines and both comment forms are consumed silently. */
  predicate IsEmitted(k: Kind)
  {
    k !in {Whitespace, Newline, Comment, CommentMulti}
  }

  /** The emitted kinds are those whose name is not among the four names
      the scan consumes silently. */
  lemma EmittedByName(k: Kind)
    ensures IsEmitted(k) <==> Name(k) !in ["WHITESPACE", "NEWLINE", "COMMENT", "COMMENT_MULTI"]
  {
  }

  /** No two rules share a name. */
  lemma NameInjective(j: Kind, k: Kind)
    requires Name(j) == Name(k)
    ensures j == k
  {
  }
}

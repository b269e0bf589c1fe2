/** The symbol-table classification of `clasificar_token`: each token gets
    a short lexeme code and a category. */
module Classifier {
  import opened Tokens
  import opened Rules
  import opened Scanner

  /** The pair `(lexema, categoria)` for a token: one fixed pair per
      keyword, identifier, number, string and error token; operators and
      delimiters by their text; anything else falls back on the rule name
      and `OTRO`. */
  function ClasificarToken(t: Token): (r: (string, string))
    ensures r.1 == "OTRO" <==> !IsEmitted(t.tipo)
    ensures !IsEmitted(t.tipo) ==> r.0 == Name(t.tipo)
  {
    if t.tipo == Keyword then ("PR", "PALABRA_RESERVADA")
    else if t.tipo == Identifier then ("ID", "IDENTIFICADOR")
    else if t.tipo == Number then ("NUM", "NUMERO")
    else if t.tipo == Str then ("CAD", "CADENA")
    else if t.tipo == Operator then ClasificarOperador(t.valor)
    else if t.tipo == Delimiter then ClasificarDelimitador(t.valor)
    else if t.tipo == Error then ("ERR", "ERROR_LEXICO")
    else (Name(t.tipo), "OTRO")
  }

  /** The operator branch: the four arithmetic operators, assignment, the
      six comparisons, and `OP` for any other text. */
  function ClasificarOperador(v: string): (r: (string, string))
    ensures r.1 == "OPERADOR_ARITMÉTICO" <==> v in ["+", "-", "*", "/"]
    ensures r.1 == "OPERADOR_ASIGNACIÓN" <==> v == "="
    ensures r.1 == "OPERADOR_RELACIONAL" <==> v in ["==", "!=", "<", ">", "<=", ">="]
    ensures r == ("OP", "OPERADOR") <==> v !in OperatorAlternatives
  {
    if v == "+" then ("MAS", "OPERADOR_ARITMÉTICO")
    else if v == "-" then ("MENOS", "OPERADOR_ARITMÉTICO")
    else if v == "*" then ("POR", "OPERADOR_ARITMÉTICO")
    else if v == "/" then ("ENTRE", "OPERADOR_ARITMÉTICO")
    else if v == "=" then ("ASIG", "OPERADOR_ASIGNACIÓN")
    else if v in ["==", "!=", "<", ">", "<=", ">="] then ("REL", "OPERADOR_RELACIONAL")
    else ("OP", "OPERADOR")
  }

  /** The delimiter branch: the two bracket pairs are grouping, `;` ends
      an instruction, `,` separates, and `DELIM` covers any other text. */
  function ClasificarDelimitador(v: string): (r: (string, string))
    ensures r.1 == "AGRUPACIÓN" <==> v in ["(", ")", "{", "}"]
    ensures r == ("DELIM", "DELIMITADOR") <==> !(|v| == 1 && IsDelimiter(v[0]))
  {
    if v == "(" then ("PA", "AGRUPACIÓN")
    else if v == ")" then ("PC", "AGRUPACIÓN")
    else if v == "{" then ("LLA", "AGRUPACIÓN")
    else if v == "}" then ("LLC", "AGRUPACIÓN")
    else if v == ";" then ("PYC", "FIN_INSTRUCCION")
    else if v == "," then ("COMA", "SEPARADOR")
    else ("DELIM", "DELIMITADOR")
  }

  /** The category of a token of an emitted kind tells its kind: no two
      kinds share a category. */
  lemma CategoryDeterminesKind(t: Token, u: Token)
    requires IsEmitted(t.tipo) && ClasificarToken(t).1 == ClasificarToken(u).1
    ensures t.tipo == u.tipo
  {
  }

  /** A token of its rule's shape gets a specific code: never the `OP` or
      `DELIM` catch-alls and never `OTRO`. */
  lemma ShapedTokenClassified(t: Token)
    requires WellFormed(t.tipo, t.valor)
    ensures ClasificarToken(t).0 != "OP" && ClasificarToken(t).0 != "DELIM"
    ensures ClasificarToken(t).1 != "OTRO"
  {
  }

  /** Every token the scanner produces gets a specific code. */
  lemma ScannedTokensClassified(s: string, pos: nat, line: nat)
    requires pos <= |s|
    ensures forall t :: t in Scan(s, pos, line) ==>
              ClasificarToken(t).0 != "OP" && ClasificarToken(t).0 != "DELIM"
              && ClasificarToken(t).1 != "OTRO"
  {
    ScanShape(s, pos, line);
    forall t | t in Scan(s, pos, line)
      ensures ClasificarToken(t).0 != "OP" && ClasificarToken(t).0 != "DELIM"
      ensures ClasificarToken(t).1 != "OTRO"
    {
      ShapedTokenClassified(t);
    }
  }

  /** Among tokens of their rules' shapes, each operator and delimiter code
      names exactly one text: only `PR`, `ID`, `NUM`, `CAD`, `REL` and
      `ERR` are shared by different texts. */
  lemma CodeDeterminesText(t: Token, u: Token)
    requires WellFormed(t.tipo, t.valor) && WellFormed(u.tipo, u.valor)
    requires ClasificarToken(t).0 == ClasificarToken(u).0
    requires ClasificarToken(t).0 !in ["PR", "ID", "NUM", "CAD", "REL", "ERR"]
    ensures t.tipo == u.tipo && t.valor == u.valor
  {
  }
}

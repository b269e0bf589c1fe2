/** The lexical analyser object: the source text, the cursor and the line
    counter, and the `tokenizar` loop that advances them. */
module Lexer {
  import opened Tokens
  import opened Rules
  import opened Scanner

  class AnalizadorLexico {
    const codigo: string
    var pos: nat
    var linea: nat

    /** The cursor never passes the end of the text. */
    predicate Valid()
      reads this
    {
      pos <= |codigo|
    }

    /** A fresh analyser stands at the start of the text, on line 1. */
    constructor (codigo: string)
      ensures this.codigo == codigo && pos == 0 && linea == 1
      ensures Valid()
    {
      this.codigo := codigo;
      pos := 0;
      linea := 1;
    }

    /** Scans from the cursor to the end of the text. Each iteration tries
        the rules in table order and takes the first that matches: a
        `NEWLINE` advances the line counter, the four silent kinds are
        dropped, every other match becomes a token with the current line,
        and the cursor moves past the match. */
    method Tokenizar() returns (tokens: seq<Token>)
      requires Valid()
      modifies this
      ensures Valid()
      ensures tokens == Scan(codigo, old(pos), old(linea))
      ensures pos == |codigo| && linea == LinesAfter(codigo, old(pos), old(linea))
    {
      tokens := [];
      while pos < |codigo|
        invariant Valid()
        invariant ScanInto(codigo, pos, linea, tokens) == ScanInto(codigo, old(pos), old(linea), [])
        invariant LinesAfter(codigo, pos, linea) == LinesAfter(codigo, old(pos), old(linea))
        decreases |codigo| - pos
      {
        var encontrado, i, n := PrimerPatron();
        if encontrado {
          ghost var pos0, linea0, tokens0 := pos, linea, tokens;
          var tipo := RuleOrder[i];
          var valor := codigo[pos..pos + n];
          if tipo == Newline {
            linea := linea + 1;
          } else if IsEmitted(tipo) {
            tokens := tokens + [Token(tipo, valor, linea)];
          }
          pos := pos + n;
          ScanIntoTakes(codigo, pos0, linea0, tokens0, i, n, tipo, valor, pos, linea, tokens);
        } else {
          assert false;
        }
      }
      ScanIntoFromStart(codigo, old(pos), old(linea));
    }

    /** The inner loop of `tokenizar`: the rules are tried in table order
        and the first that matches at the cursor is reported, by its
        position `i` in the table and the length `n` of its match. Some rule
        always matches before the end of the text. */
    method PrimerPatron() returns (encontrado: bool, i: nat, n: nat)
      requires Valid() && pos < |codigo|
      ensures encontrado
      ensures i < |RuleOrder| && Match(RuleOrder[i], codigo, pos) == Some(n)
      ensures forall j :: 0 <= j < i ==> Match(RuleOrder[j], codigo, pos).None?
    {
      encontrado := false;
      i := 0;
      n := 0;
      while i < |RuleOrder|
        invariant 0 <= i <= |RuleOrder|
        invariant forall j :: 0 <= j < i ==> Match(RuleOrder[j], codigo, pos).None?
      {
        var m := Match(RuleOrder[i], codigo, pos);
        if m.Some? {
          n := m.value;
          encontrado := true;
          return;
        }
        i := i + 1;
      }
      SomeRuleMatches(codigo, pos);
      assert false;
    }
  }
}

/** The ConfigParser object (config_to_json/config_to_json.py:6-163): the
    token list, the cursor `position` and the variable map `variables` are
    fields that its methods update in place. Every method is proved to compute
    the corresponding function of ConfigGrammar / ConfigLexer. */
module ConfigParserClass {
  import opened ConfigSyntax
  import opened ConfigValues
  import opened ConfigEval
  import opened ConfigGrammar
  import ConfigLexer
  import ConfigComments

  /** A method's result and the cursor it leaves agree with a parse function:
      on success the same value and the cursor just past it, otherwise the
      same error. */
  predicate Agrees<T(==)>(r: Result<T>, position: nat, s: Result<Parsed<T>>)
  {
    match s
    case Ok(p) => r == Ok(p.result) && position == p.next
    case Err(e) => r == Err(e)
  }

  /** The scan of s from position i, with the tokens already found in
      front: the loop of ConfigParser.tokenize as a function. */
  function ScanFrom(s: string, i: nat, tokens: seq<Token>): ConfigLexer.Lexed
    decreases |s| - i
  {
    if i >= |s| then ConfigLexer.Lexed(tokens, None)
    else
      match ConfigLexer.MatchPrefix(s[i..])
      case Emit(t, k) => ScanFrom(s, i + k, tokens + [t])
      case Skip(k) => ScanFrom(s, i + k, tokens)
      case Mismatch(c) => ConfigLexer.Lexed(tokens, Some(c))
  }

  /** Scanning from i is scanning the rest of s after the tokens so far. */
  lemma {:induction false} ScanFromLex(s: string, i: nat, tokens: seq<Token>)
    requires i <= |s|
    ensures var rest := ConfigLexer.Lex(s[i..]);
            ScanFrom(s, i, tokens) == ConfigLexer.Lexed(tokens + rest.tokens, rest.stoppedAt)
    decreases |s| - i
  {
    if i < |s| {
      ConfigLexer.LexAt(s, i);
      match ConfigLexer.MatchPrefix(s[i..])
      case Emit(t, k) =>
        ScanFromLex(s, i + k, tokens + [t]);
        assert tokens + [t] + ConfigLexer.Lex(s[i + k..]).tokens == tokens + ([t] + ConfigLexer.Lex(s[i + k..]).tokens);
      case Skip(k) =>
        ScanFromLex(s, i + k, tokens);
      case Mismatch(c) =>
    } else {
      assert s[i..] == [];
    }
  }

  class ConfigParser {
    var variables: Env
    var tokens: seq<Token>
    var position: nat

    /** ConfigParser.__init__. */
    constructor ()
      ensures variables == map[] && tokens == [] && position == 0
    {
      variables := map[];
      tokens := [];
      position := 0;
    }

    /** ConfigParser.parse: tokenize, then parse the statements. The cursor
        and the variable map are not reset, so only a fresh instance computes
        Convert(text). */
    method Parse(text: string) returns (r: Result<seq<Statement>>)
      modifies this`tokens, this`position, this`variables
      ensures tokens == ConfigLexer.Lex(ConfigComments.RemoveComments(text)).tokens
      ensures ConfigLexer.Tokenize(text).Err? ==> r == Err(ConfigLexer.Tokenize(text).error)
      ensures ConfigLexer.Tokenize(text).Ok? ==>
        var s := StatementsAt(tokens, old(position), old(variables), []);
        (s.Ok? ==> r == Ok(s.value.statements) && variables == s.value.variables) &&
        (s.Err? ==> r == Err(s.error))
      ensures old(position) == 0 && old(variables) == map[] ==> r == Convert(text)
    {
      var ts :- Tokenize(text);
      r := ParseStatements();
    }

    /** ConfigParser.tokenize: comments removed, then the token classes matched
        left to right; the tokens found before an unmatched character stay in
        `tokens`. */
    method Tokenize(text: string) returns (r: Result<seq<Token>>)
      modifies this`tokens
      ensures tokens == ConfigLexer.Lex(ConfigComments.RemoveComments(text)).tokens
      ensures r == ConfigLexer.Tokenize(text)
    {
      var s := ConfigComments.RemoveComments(text);
      ScanFromLex(s, 0, []);
      assert s[0..] == s;
      ghost var whole := ScanFrom(s, 0, []);
      tokens := [];
      var i := 0;
      while i < |s|
        invariant 0 <= i <= |s|
        invariant ScanFrom(s, i, tokens) == whole
        decreases |s| - i
      {
        var m := ConfigLexer.MatchPrefix(s[i..]);
        match m {
          case Emit(t, k) =>
            tokens := tokens + [t];
            i := i + k;
          case Skip(k) =>
            i := i + k;
          case Mismatch(c) =>
            return Err(UnexpectedCharacter(c));
        }
      }
      return Ok(tokens);
    }

    /** ConfigParser.parse_statements: declarations until the tokens run out. */
    method ParseStatements() returns (r: Result<seq<Statement>>)
      modifies this`position, this`variables
      ensures var s := StatementsAt(tokens, old(position), old(variables), []);
        (s.Ok? ==> r == Ok(s.value.statements) && variables == s.value.variables) &&
        (s.Err? ==> r == Err(s.error))
      ensures r.Ok? && old(position) <= |tokens| ==> position == |tokens|
    {
      var statements: seq<Statement> := [];
      while position < |tokens|
        invariant StatementsAt(tokens, position, variables, statements)
          == StatementsAt(tokens, old(position), old(variables), [])
        invariant old(position) <= |tokens| ==> position <= |tokens|
        decreases |tokens| - position
      {
        var stmt :- ParseStatement();
        statements := statements + [stmt];
      }
      return Ok(statements);
    }

    /** ConfigParser.parse_statement: a statement must start with `var`. */
    method ParseStatement() returns (r: Result<Statement>)
      modifies this`position, this`variables
      ensures Agrees(r, position, StatementAt(tokens, old(position), old(variables)))
      ensures r.Ok? ==> variables == old(variables)[r.value.name := r.value.value]
      ensures r.Err? ==> variables == old(variables)
    {
      if position >= |tokens| {
        return Err(IndexError);
      }
      var token := tokens[position];
      if token == Var {
        r := ParseVarDeclaration();
      } else {
        r := Err(SyntaxError);
      }
    }

    /** ConfigParser.parse_var_declaration: `var NAME := value`, then the name
        is bound to the value. */
    method ParseVarDeclaration() returns (r: Result<Statement>)
      modifies this`position, this`variables
      ensures Agrees(r, position, DeclarationAt(tokens, old(position), old(variables)))
      ensures r.Ok? ==> variables == old(variables)[r.value.name := r.value.value]
      ensures r.Err? ==> variables == old(variables)
    {
      var kw :- Expect(VAR);
      var name :- Expect(NAME);
      var assign :- Expect(ASSIGN);
      var value :- ParseValue();
      variables := variables[name.id := value];
      return Ok(Statement(name.id, value));
    }

    /** ConfigParser.parse_value. */
    method ParseValue() returns (r: Result<Value>)
      modifies this`position
      ensures Agrees(r, position, ValueAt(tokens, old(position), variables))
      decreases |tokens| - position, 2
    {
      if position >= |tokens| {
        return Err(IndexError);
      }
      var token := tokens[position];
      match token {
        case Number(n) =>
          var t := Consume(NUMBER);
          return Ok(Int(n));
        case LBrack =>
          r := ParseArray();
        case LBrace =>
          r := ParseExpression();
        case _ =>
          return Err(SyntaxError);
      }
    }

    /** ConfigParser.parse_array. */
    method ParseArray() returns (r: Result<Value>)
      modifies this`position
      ensures Agrees(r, position, ArrayAt(tokens, old(position), variables))
      decreases |tokens| - position, 1
    {
      var open :- Expect(LBRACK);
      ghost var target := ArrayAt(tokens, old(position), variables);
      assert target == ElementsAt(tokens, position, variables, []);
      var items: seq<Value> := [];
      while true
        invariant old(position) < position
        invariant ElementsAt(tokens, position, variables, items) == target
        decreases |tokens| - position
      {
        if position >= |tokens| {
          return Err(IndexError);
        }
        if tokens[position] == RBrack {
          assert target == CloseAt(tokens, position, items);
          break;
        }
        var value, more := ParseElement(items);
        if value.Err? {
          return Err(value.error);
        }
        items := items + [value.value];
        if !more {
          break;
        }
      }
      var close :- Expect(RBRACK);
      return Ok(Array(items));
    }

    /** One round of the loop of parse_array once it has seen no `]`: a
        value, then a `,` that is consumed (the loop goes on) or anything
        else (the loop stops there). */
    method ParseElement(ghost items: seq<Value>) returns (r: Result<Value>, more: bool)
      requires position < |tokens| && tokens[position] != RBrack
      modifies this`position
      ensures r.Err? ==> ElementsAt(tokens, old(position), variables, items) == Err(r.error)
      ensures r.Ok? && more ==> old(position) < position
      ensures r.Ok? && more ==>
                ElementsAt(tokens, old(position), variables, items) ==
                ElementsAt(tokens, position, variables, items + [r.value])
      ensures r.Ok? && !more ==>
                ElementsAt(tokens, old(position), variables, items) == CloseAt(tokens, position, items + [r.value])
      decreases |tokens| - position, 3
    {
      ghost var p := position;
      more := false;
      var parsed := ParseValue();
      if parsed.Err? {
        ElementsValueFails(tokens, p, variables, items);
        return Err(parsed.error), false;
      }
      var value := parsed.value;
      r := Ok(value);
      if position >= |tokens| {
        ElementsPastEnd(tokens, p, variables, items, value, position);
        return Err(IndexError), false;
      }
      if tokens[position] != Comma {
        ElementsClose(tokens, p, variables, items, value, position);
        return;
      }
      ghost var q := position;
      ElementsComma(tokens, p, variables, items, value, q);
      var comma := Consume(COMMA);
      more := true;
    }

    /** ConfigParser.parse_expression: the postfix stack machine between `{`
        and `}`; the top of the stack is the last element of `stack`. */
    method ParseExpression() returns (r: Result<Value>)
      modifies this`position
      ensures Agrees(r, position, ExpressionAt(tokens, old(position), variables))
    {
      var open :- Expect(LBRACE);
      var stack: seq<Value> := [];
      while true
        invariant old(position) < position
        invariant EvalFrom(tokens, position, variables, stack) == ExpressionAt(tokens, old(position), variables)
        decreases |tokens| - position
      {
        if position >= |tokens| {
          return Err(IndexError);
        }
        var token := tokens[position];
        if token == RBrace {
          break;
        }
        EvalFromStep(tokens, position, variables, stack);
        stack :- ExpressionStep(token, stack);
      }
      var close := Expect(RBRACE);
      if |stack| != 1 {
        return Err(SyntaxError);
      }
      return Ok(stack[0]);
    }

    /** One pass of the loop of parse_expression, at a token other than `}`:
        the token is consumed and applied to the stack. */
    method ExpressionStep(token: Token, stack: seq<Value>) returns (r: Result<seq<Value>>)
      requires position < |tokens| && tokens[position] == token && token != RBrace
      modifies this`position
      ensures r == Step(token, variables, stack)
      ensures r.Ok? ==> position == old(position) + 1
    {
      var st := stack;
      match token {
        case Number(n) =>
          var t := Consume(NUMBER);
          st := st + [Int(n)];
        case Name(x) =>
          var t := Consume(NAME);
          if x !in variables {
            return Err(NameError(x));
          }
          st := st + [variables[x]];
        case Op(op) =>
          var t := Consume(OP);
          if |st| == 0 {
            return Err(IndexError);
          }
          var b := st[|st| - 1];
          st := st[..|st| - 1];
          if |st| == 0 {
            return Err(IndexError);
          }
          var a := st[|st| - 1];
          st := st[..|st| - 1];
          assert st == stack[..|stack| - 2];
          var result :- Apply(op, a, b);
          st := st + [result];
        case Sort =>
          var t := Consume(SORT);
          if |st| == 0 {
            return Err(IndexError);
          }
          var items := st[|st| - 1];
          st := st[..|st| - 1];
          var sorted :- SortValue(items);
          st := st + [sorted];
        case Index =>
          var t := Consume(INDEX);
          if |st| == 0 {
            return Err(IndexError);
          }
          var index := st[|st| - 1];
          st := st[..|st| - 1];
          if |st| == 0 {
            return Err(IndexError);
          }
          var items := st[|st| - 1];
          st := st[..|st| - 1];
          assert st == stack[..|stack| - 2];
          var element :- IndexValue(items, index);
          st := st + [element];
        case _ =>
          return Err(SyntaxError);
      }
      r := Ok(st);
    }

    /** ConfigParser.expect: the cursor moves past a token of the expected
        kind; otherwise it stays and the result is a SyntaxError. */
    method Expect(kind: Kind) returns (r: Result<Token>)
      modifies this`position
      ensures r == ExpectAt(tokens, old(position), kind)
      ensures position == if r.Ok? then old(position) + 1 else old(position)
    {
      if position >= |tokens| {
        return Err(SyntaxError);
      }
      var token := tokens[position];
      if KindOf(token) == kind {
        position := position + 1;
        return Ok(token);
      }
      return Err(SyntaxError);
    }

    /** ConfigParser.consume, which is expect under another name. */
    method Consume(kind: Kind) returns (r: Result<Token>)
      modifies this`position
      ensures r == ExpectAt(tokens, old(position), kind)
      ensures position == if r.Ok? then old(position) + 1 else old(position)
    {
      r := Expect(kind);
    }
  }
}

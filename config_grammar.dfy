/** The recursive-descent grammar of ConfigParser
    (config_to_json/config_to_json.py:56-101, 152-163) as functions of the
    token list and a cursor: each returns what was parsed and where the cursor
    stands after it, or the error the source raises. The class ConfigParser
    (config_parser.dfy) is proved to compute exactly these functions. */
module ConfigGrammar {
  import opened ConfigSyntax
  import opened ConfigEval
  import ConfigLexer
  import ConfigComments

  /** ConfigParser.expect: the token at pos must be of kind k; past the end,
      or of another kind, is a SyntaxError. */
  function ExpectAt(ts: seq<Token>, pos: nat, k: Kind): (r: Result<Token>)
    ensures r.Ok? <==> pos < |ts| && KindOf(ts[pos]) == k
    ensures r.Ok? ==> r.value == ts[pos]
    ensures r.Err? ==> r.error == SyntaxError
  {
    if pos >= |ts| then Err(SyntaxError)
    else if KindOf(ts[pos]) == k then Ok(ts[pos])
    else Err(SyntaxError)
  }

  /** ConfigParser.parse_value: a NUMBER, an array or a bracketed expression.
      Reading past the last token is an IndexError. */
  function ValueAt(ts: seq<Token>, pos: nat, env: Env): (r: Result<Parsed<Value>>)
    ensures r.Ok? ==> pos < r.value.next <= |ts|
    decreases |ts| - pos, 2
  {
    if pos >= |ts| then Err(IndexError)
    else match ts[pos]
      case Number(n) => Ok(Parsed(Int(n), pos + 1))
      case LBrack => ArrayAt(ts, pos, env)
      case LBrace => ExpressionAt(ts, pos, env)
      case _ => Err(SyntaxError)
  }

  /** ConfigParser.parse_array: `[`, then the elements. */
  function ArrayAt(ts: seq<Token>, pos: nat, env: Env): (r: Result<Parsed<Value>>)
    ensures r.Ok? ==> pos < r.value.next <= |ts| && r.value.result.Array?
    decreases |ts| - pos, 1
  {
    var open :- ExpectAt(ts, pos, LBRACK);
    ElementsAt(ts, pos + 1, env, [])
  }

  /** The loop of parse_array from cursor p with the elements acc read so far:
      a `]` ends the array; otherwise a value is read and must be followed by
      a `,` (the loop goes on, so a `,` right before `]` is accepted) or by the
      closing `]`. Reading past the last token is an IndexError. */
  function ElementsAt(ts: seq<Token>, p: nat, env: Env, acc: seq<Value>): (r: Result<Parsed<Value>>)
    ensures r.Ok? ==> p < r.value.next <= |ts| && ts[r.value.next - 1] == RBrack
    ensures r.Ok? ==> r.value.result.Array? && |r.value.result.elems| >= |acc|
    ensures r.Ok? ==> r.value.result.elems[..|acc|] == acc
    decreases |ts| - p, 3
  {
    if p >= |ts| then Err(IndexError)
    else if ts[p] == RBrack then Ok(Parsed(Array(acc), p + 1))
    else
      var v :- ValueAt(ts, p, env);
      var q := v.next;
      if q >= |ts| then Err(IndexError)
      else if ts[q] == Comma then
        var r := ElementsAt(ts, q + 1, env, acc + [v.result]);
        assert r.Ok? ==> r.value.result.elems[..|acc|] == (acc + [v.result])[..|acc|];
        r
      else CloseAt(ts, q, acc + [v.result])
  }

  /** The `expect(RBRACK)` after the loop of parse_array, with the elements
      read: the array ends at the `]`, anything else is a SyntaxError. */
  function CloseAt(ts: seq<Token>, q: nat, elems: seq<Value>): (r: Result<Parsed<Value>>)
    ensures r.Ok? <==> q < |ts| && ts[q] == RBrack
    ensures r.Ok? ==> r.value == Parsed(Array(elems), q + 1)
    ensures r.Err? ==> r.error == SyntaxError
  {
    var close :- ExpectAt(ts, q, RBRACK);
    Ok(Parsed(Array(elems), q + 1))
  }

  /** ConfigParser.parse_expression: `{`, then the stack machine up to `}`. */
  function ExpressionAt(ts: seq<Token>, pos: nat, env: Env): (r: Result<Parsed<Value>>)
    ensures r.Ok? ==> pos + 1 < r.value.next <= |ts| && ts[r.value.next - 1] == RBrace
  {
    var open :- ExpectAt(ts, pos, LBRACE);
    EvalFrom(ts, pos + 1, env, [])
  }

  /** ConfigParser.parse_var_declaration: `var NAME := value`. */
  function DeclarationAt(ts: seq<Token>, pos: nat, env: Env): (r: Result<Parsed<Statement>>)
    ensures r.Ok? ==> pos + 3 < r.value.next <= |ts|
    ensures r.Ok? ==> ts[pos] == Var && ts[pos + 1] == Name(r.value.result.name) && ts[pos + 2] == Assign
  {
    var kw :- ExpectAt(ts, pos, VAR);
    var name :- ExpectAt(ts, pos + 1, NAME);
    var assign :- ExpectAt(ts, pos + 2, ASSIGN);
    var v :- ValueAt(ts, pos + 3, env);
    Ok(Parsed(Statement(name.id, v.result), v.next))
  }

  /** ConfigParser.parse_statement: only a declaration may start a statement. */
  function StatementAt(ts: seq<Token>, pos: nat, env: Env): (r: Result<Parsed<Statement>>)
    ensures pos < |ts| && ts[pos] != Var ==> r == Err(SyntaxError)
    ensures r.Ok? ==> pos < r.value.next <= |ts|
  {
    if pos >= |ts| then Err(IndexError)
    else if ts[pos] == Var then DeclarationAt(ts, pos, env)
    else Err(SyntaxError)
  }

  /** The records produced so far and the variable map. */
  datatype Session = Session(statements: seq<Statement>, variables: Env)

  /** ConfigParser.parse_statements from cursor pos, with the records acc
      already produced: statements are parsed until the tokens run out, each
      binding its name before the next one is read; the first error aborts. */
  function StatementsAt(ts: seq<Token>, pos: nat, env: Env, acc: seq<Statement>): (r: Result<Session>)
    ensures pos >= |ts| ==> r == Ok(Session(acc, env))
    ensures pos < |ts| && ts[pos] != Var ==> r == Err(SyntaxError)
    decreases |ts| - pos
  {
    if pos >= |ts| then Ok(Session(acc, env))
    else
      var s :- StatementAt(ts, pos, env);
      StatementsAt(ts, s.next, env[s.result.name := s.result.value], acc + [s.result])
  }

  /** ConfigParser().parse(text) on a fresh instance: the records in source
      order, or the first error. */
  function Convert(text: string): Result<seq<Statement>>
  {
    var ts :- ConfigLexer.Tokenize(text);
    var session :- StatementsAt(ts, 0, map[], []);
    Ok(session.statements)
  }

  // ---------------------------------------------------------------------------
  // The variable map after a run of statements

  /** The map after binding each statement's name to its value, in order. */
  function Bind(env: Env, st: seq<Statement>): Env
    decreases |st|
  {
    if st == [] then env else Bind(env[st[0].name := st[0].value], st[1..])
  }

  /** The statements produced are acc followed by the new ones, and the
      variable map is env with every new statement bound in order. */
  lemma {:induction false} StatementsBind(ts: seq<Token>, pos: nat, env: Env, acc: seq<Statement>)
    requires StatementsAt(ts, pos, env, acc).Ok?
    ensures var s := StatementsAt(ts, pos, env, acc).value;
      |acc| <= |s.statements| && s.statements[..|acc|] == acc &&
      s.variables == Bind(env, s.statements[|acc|..])
    decreases |ts| - pos
  {
    var s := StatementsAt(ts, pos, env, acc).value;
    if pos >= |ts| {
      assert s.statements[|acc|..] == [];
    } else {
      var d := StatementAt(ts, pos, env).value;
      var acc' := acc + [d.result];
      StatementsBind(ts, d.next, env[d.result.name := d.result.value], acc');
      PrefixStep(s.statements, acc, d.result);
    }
  }

  /** A sequence that starts with acc + [d], seen from the end of acc. */
  lemma PrefixStep(xs: seq<Statement>, acc: seq<Statement>, d: Statement)
    requires |acc| + 1 <= |xs| && xs[..|acc| + 1] == acc + [d]
    ensures xs[..|acc|] == acc
    ensures xs[|acc|..] != [] && xs[|acc|..][0] == d && xs[|acc|..][1..] == xs[|acc| + 1..]
  {
    assert xs[..|acc|] == (acc + [d])[..|acc|];
  }

  /** A re-declaration overwrites: a name maps to the value of its last declaration. */
  lemma {:induction false} LastBindingWins(env: Env, st: seq<Statement>, k: nat)
    requires k < |st|
    requires forall j :: k < j < |st| ==> st[j].name != st[k].name
    ensures st[k].name in Bind(env, st) && Bind(env, st)[st[k].name] == st[k].value
    decreases |st|
  {
    if k == 0 {
      BindKeepsOthers(env[st[0].name := st[0].value], st[1..], st[0].name);
    } else {
      LastBindingWins(env[st[0].name := st[0].value], st[1..], k - 1);
    }
  }

  /** A name no statement declares keeps its binding, or stays unbound. */
  lemma {:induction false} BindKeepsOthers(env: Env, st: seq<Statement>, x: string)
    requires forall j :: 0 <= j < |st| ==> st[j].name != x
    ensures (x in Bind(env, st)) == (x in env)
    ensures x in env ==> Bind(env, st)[x] == env[x]
    decreases |st|
  {
    if st != [] {
      BindKeepsOthers(env[st[0].name := st[0].value], st[1..], x);
    }
  }

  /** Later expressions see the latest value: after `var x := 1 var x := 2`,
      `var y := {x}` binds y to 2, and all three records are produced. */
  lemma RedeclarationIsSeen()
    ensures StatementsAt(RedeclarationTokens(), 0, map[], [])
      == Ok(Session([Statement("x", Int(1)), Statement("x", Int(2)), Statement("y", Int(2))],
                    map["x" := Int(2), "y" := Int(2)]))
  {
    var ts := RedeclarationTokens();
    var e1 := map["x" := Int(1)];
    var e2 := map["x" := Int(2)];
    var e3 := map["x" := Int(2), "y" := Int(2)];
    var s1 := Statement("x", Int(1));
    var s2 := Statement("x", Int(2));
    var s3 := Statement("y", Int(2));
    RedeclarationFirst();
    StatementsStep(ts, 0, map[], []);
    RedeclarationSecond();
    StatementsStep(ts, 4, e1, [s1]);
    RedeclarationThird();
    StatementsStep(ts, 8, e2, [s1, s2]);
    assert map[]["x" := Int(1)] == e1 && e1["x" := Int(2)] == e2 && e2["y" := Int(2)] == e3;
    assert [] + [s1] == [s1] && [s1] + [s2] == [s1, s2] && [s1, s2] + [s3] == [s1, s2, s3];
  }

  /** `var x := 1  var x := 2  var y := {x}` as tokens. */
  function RedeclarationTokens(): (ts: seq<Token>)
    ensures |ts| == 14
  {
    [Var, Name("x"), Assign, Number(1),
     Var, Name("x"), Assign, Number(2),
     Var, Name("y"), Assign, LBrace, Name("x"), RBrace]
  }

  lemma RedeclarationFirst()
    ensures StatementAt(RedeclarationTokens(), 0, map[]) == Ok(Parsed(Statement("x", Int(1)), 4))
  {
    var ts := RedeclarationTokens();
    assert ValueAt(ts, 3, map[]) == Ok(Parsed(Int(1), 4));
  }

  lemma RedeclarationSecond()
    ensures StatementAt(RedeclarationTokens(), 4, map["x" := Int(1)]) == Ok(Parsed(Statement("x", Int(2)), 8))
  {
    var ts := RedeclarationTokens();
    assert ValueAt(ts, 7, map["x" := Int(1)]) == Ok(Parsed(Int(2), 8));
  }

  lemma RedeclarationThird()
    ensures StatementAt(RedeclarationTokens(), 8, map["x" := Int(2)]) == Ok(Parsed(Statement("y", Int(2)), 14))
  {
    var ts := RedeclarationTokens();
    var e2 := map["x" := Int(2)];
    assert ts[8] == Var && ts[9] == Name("y") && ts[10] == Assign && ts[11] == LBrace;
    assert ts[12] == Name("x") && ts[13] == RBrace;
    assert EvalFrom(ts, 12, e2, []) == Ok(Parsed(Int(2), 14)) by {
      var none: seq<Value> := [];
      assert none + [Int(2)] == [Int(2)];
      assert Step(Name("x"), e2, none) == Ok([Int(2)]);
      EvalFromStep(ts, 12, e2, []);
    }
    assert ValueAt(ts, 11, e2) == Ok(Parsed(Int(2), 14));
  }

  /** One statement of the loop of parse_statements. */
  lemma StatementsStep(ts: seq<Token>, pos: nat, env: Env, acc: seq<Statement>)
    requires StatementAt(ts, pos, env).Ok?
    ensures var d := StatementAt(ts, pos, env).value;
      StatementsAt(ts, pos, env, acc) == StatementsAt(ts, d.next, env[d.result.name := d.result.value], acc + [d.result])
  {
  }

  // ---------------------------------------------------------------------------
  // Parsing looks only at the tokens it consumes

  /** A value that parses from ts parses the same when more tokens follow. */
  lemma {:induction false} ValueAtExtends(ts: seq<Token>, more: seq<Token>, pos: nat, env: Env)
    requires ValueAt(ts, pos, env).Ok?
    ensures ValueAt(ts + more, pos, env) == ValueAt(ts, pos, env)
    decreases |ts| - pos, 2
  {
    match ts[pos]
    case Number(_) =>
    case LBrack =>
      ElementsAtExtends(ts, more, pos + 1, env, []);
    case LBrace =>
      EvalFromExtends(ts, more, pos + 1, env, []);
  }

  lemma {:induction false} ElementsAtExtends(ts: seq<Token>, more: seq<Token>, p: nat, env: Env, acc: seq<Value>)
    requires ElementsAt(ts, p, env, acc).Ok?
    ensures ElementsAt(ts + more, p, env, acc) == ElementsAt(ts, p, env, acc)
    decreases |ts| - p, 3
  {
    var us := ts + more;
    assert us[p] == ts[p];
    if ts[p] != RBrack {
      ValueAtExtends(ts, more, p, env);
      var v := ValueAt(ts, p, env).value;
      var q := v.next;
      assert q < |ts| && us[q] == ts[q];
      if ts[q] == Comma {
        ElementsComma(ts, p, env, acc, v.result, q);
        ElementsComma(us, p, env, acc, v.result, q);
        ElementsAtExtends(ts, more, q + 1, env, acc + [v.result]);
      } else {
        assert ts[q] == RBrack;
        ElementsLast(v.result, ts, p, q, env, acc);
        ElementsLast(v.result, us, p, q, env, acc);
      }
    }
  }

  lemma {:induction false} EvalFromExtends(ts: seq<Token>, more: seq<Token>, pos: nat, env: Env, stack: seq<Value>)
    requires EvalFrom(ts, pos, env, stack).Ok?
    ensures EvalFrom(ts + more, pos, env, stack) == EvalFrom(ts, pos, env, stack)
    decreases |ts| - pos
  {
    var us := ts + more;
    assert us[pos] == ts[pos];
    if ts[pos] != RBrace {
      EvalFromExtends(ts, more, pos + 1, env, Step(ts[pos], env, stack).value);
    }
  }

  lemma StatementAtExtends(ts: seq<Token>, more: seq<Token>, pos: nat, env: Env)
    requires StatementAt(ts, pos, env).Ok?
    ensures StatementAt(ts + more, pos, env) == StatementAt(ts, pos, env)
  {
    var us := ts + more;
    assert us[pos] == ts[pos] && us[pos + 1] == ts[pos + 1] && us[pos + 2] == ts[pos + 2];
    ValueAtExtends(ts, more, pos + 3, env);
  }

  /** A program split after a complete statement: its records are those of
      the first part followed by those of the rest, which sees the bindings
      of the first part. */
  lemma {:induction false} StatementsSplit(ts: seq<Token>, m: nat, pos: nat, env: Env, acc: seq<Statement>)
    requires pos <= m <= |ts|
    requires StatementsAt(ts[..m], pos, env, acc).Ok?
    ensures var s := StatementsAt(ts[..m], pos, env, acc).value;
      StatementsAt(ts, pos, env, acc) == StatementsAt(ts, m, s.variables, s.statements)
    decreases m - pos
  {
    var pre := ts[..m];
    assert pre + ts[m..] == ts;
    if pos < m {
      StatementAtExtends(pre, ts[m..], pos, env);
      var d := StatementAt(pre, pos, env).value;
      StatementsSplit(ts, m, d.next, env[d.result.name := d.result.value], acc + [d.result]);
    }
  }

  // ---------------------------------------------------------------------------
  // Arrays: the literal syntax, and parsing it back

  /** A value written without braces: a NUMBER, or `[` elements `]`. */
  datatype Literal = Num(n: nat) | List(items: seq<Literal>)

  /** The value a literal stands for. */
  function LiteralValue(l: Literal): Value
  {
    match l
    case Num(n) => Int(n)
    case List(items) => Array(LiteralValues(items))
  }

  function LiteralValues(ls: seq<Literal>): (vs: seq<Value>)
    ensures |vs| == |ls|
  {
    if ls == [] then [] else [LiteralValue(ls[0])] + LiteralValues(ls[1..])
  }

  /** The tokens of a literal, elements separated by `,`. */
  function LiteralTokens(l: Literal): (ts: seq<Token>)
    ensures ts != []
  {
    match l
    case Num(n) => [Number(n)]
    case List(items) => [LBrack] + ElementTokens(items) + [RBrack]
  }

  function ElementTokens(ls: seq<Literal>): seq<Token>
  {
    if ls == [] then []
    else if |ls| == 1 then LiteralTokens(ls[0])
    else LiteralTokens(ls[0]) + [Comma] + ElementTokens(ls[1..])
  }

  /** The first token of a non-empty stretch of ts. */
  lemma SliceFirst(ts: seq<Token>, i: nat, n: nat)
    requires 1 <= n && i + n <= |ts|
    ensures ts[i..i + n][0] == ts[i]
  {
  }

  /** A piece of a piece of ts is a piece of ts. */
  lemma SliceWithin(ts: seq<Token>, pos: nat, whole: seq<Token>, off: nat, part: seq<Token>)
    requires pos + |whole| <= |ts| && ts[pos..pos + |whole|] == whole
    requires off + |part| <= |whole| && whole[off..off + |part|] == part
    ensures ts[pos + off..pos + off + |part|] == part
  {
    forall j | 0 <= j < |part| ensures ts[pos + off + j] == part[j] {
      assert whole[off + j] == part[j];
      assert ts[pos..pos + |whole|][off + j] == ts[pos + off + j];
    }
  }

  /** Every literal, nested to any depth, parses back to its value, consuming
      exactly its own tokens. */
  lemma {:induction false} LiteralRoundTrip(l: Literal, ts: seq<Token>, pos: nat, env: Env)
    requires pos + |LiteralTokens(l)| <= |ts| && ts[pos..pos + |LiteralTokens(l)|] == LiteralTokens(l)
    ensures ValueAt(ts, pos, env) == Ok(Parsed(LiteralValue(l), pos + |LiteralTokens(l)|))
    decreases l, 2
  {
    var lt := LiteralTokens(l);
    match l
    case Num(n) =>
      SliceFirst(ts, pos, |lt|);
      assert ValueAt(ts, pos, env) == Ok(Parsed(Int(n), pos + 1));
    case List(items) =>
      ListLayout(items, ts, pos);
      ListRoundTrip(items, ts, pos, env);
  }

  /** Where the brackets and the elements of a list literal sit. */
  lemma ListLayout(items: seq<Literal>, ts: seq<Token>, pos: nat)
    requires var lt := LiteralTokens(List(items)); pos + |lt| <= |ts| && ts[pos..pos + |lt|] == lt
    ensures var et := ElementTokens(items);
      |LiteralTokens(List(items))| == |et| + 2 && pos + |et| + 1 < |ts| &&
      ts[pos] == LBrack && ts[pos + 1..pos + 1 + |et|] == et && ts[pos + 1 + |et|] == RBrack
  {
    var et := ElementTokens(items);
    var lt := LiteralTokens(List(items));
    assert lt == [LBrack] + et + [RBrack];
    SplitThree(ts, pos, [LBrack], et, [RBrack]);
    SliceFirst(ts, pos, 1);
    SliceFirst(ts, pos + 1 + |et|, 1);
  }

  /** A list literal in place parses to the array of its elements' values. */
  lemma {:induction false} ListRoundTrip(items: seq<Literal>, ts: seq<Token>, pos: nat, env: Env)
    requires var et := ElementTokens(items);
      pos + |et| + 1 < |ts| && ts[pos] == LBrack && ts[pos + 1..pos + 1 + |et|] == et && ts[pos + 1 + |et|] == RBrack
    ensures ValueAt(ts, pos, env) == Ok(Parsed(Array(LiteralValues(items)), pos + |ElementTokens(items)| + 2))
    decreases items, 3
  {
    ValueAtArray(ts, pos, env);
    ElementsRoundTrip(items, ts, pos + 1, env, []);
    assert [] + LiteralValues(items) == LiteralValues(items);
  }

  /** At `[` a value is the elements that follow. */
  lemma ValueAtArray(ts: seq<Token>, pos: nat, env: Env)
    requires pos < |ts| && ts[pos] == LBrack
    ensures ValueAt(ts, pos, env) == ElementsAt(ts, pos + 1, env, [])
  {
  }

  lemma {:induction false} ElementsRoundTrip(ls: seq<Literal>, ts: seq<Token>, p: nat, env: Env, acc: seq<Value>)
    requires p + |ElementTokens(ls)| < |ts| && ts[p..p + |ElementTokens(ls)|] == ElementTokens(ls)
    requires ts[p + |ElementTokens(ls)|] == RBrack
    ensures ElementsAt(ts, p, env, acc) == Ok(Parsed(Array(acc + LiteralValues(ls)), p + |ElementTokens(ls)| + 1))
    decreases ls, 2
  {
    if ls == [] {
      assert acc + LiteralValues(ls) == acc;
    } else {
      FirstElementLayout(ls, ts, p);
      LiteralRoundTrip(ls[0], ts, p, env);
      if |ls| == 1 {
        ElementsLast(LiteralValue(ls[0]), ts, p, p + |LiteralTokens(ls[0])|, env, acc);
        assert LiteralValues(ls) == [LiteralValue(ls[0])];
      } else {
        ElementsMany(ls, ts, p, env, acc);
      }
    }
  }

  /** ElementsRoundTrip for two or more elements, once the first has been parsed. */
  lemma {:induction false} ElementsMany(ls: seq<Literal>, ts: seq<Token>, p: nat, env: Env, acc: seq<Value>)
    requires |ls| >= 2
    requires p + |ElementTokens(ls)| < |ts| && ts[p..p + |ElementTokens(ls)|] == ElementTokens(ls)
    requires ts[p + |ElementTokens(ls)|] == RBrack
    requires p < |ts| && ts[p] != RBrack
    requires ValueAt(ts, p, env) == Ok(Parsed(LiteralValue(ls[0]), p + |LiteralTokens(ls[0])|))
    ensures ElementsAt(ts, p, env, acc) == Ok(Parsed(Array(acc + LiteralValues(ls)), p + |ElementTokens(ls)| + 1))
    decreases ls, 1
  {
    ElementsLayout(ls, ts, p);
    ElementsStep(ls, ts, p, env, acc);
  }

  /** A literal starts with a NUMBER or a `[`, never with `]`. */
  lemma LiteralStart(l: Literal)
    ensures LiteralTokens(l)[0] != RBrack
  {
  }

  /** Three consecutive pieces of a stretch of ts. */
  lemma SplitThree(ts: seq<Token>, p: nat, a: seq<Token>, b: seq<Token>, c: seq<Token>)
    requires p + |a + b + c| <= |ts| && ts[p..p + |a + b + c|] == a + b + c
    ensures ts[p..p + |a|] == a
    ensures ts[p + |a|..p + |a| + |b|] == b
    ensures ts[p + |a| + |b|..p + |a| + |b| + |c|] == c
  {
    SliceWithin(ts, p, a + b + c, 0, a);
    assert (a + b + c)[|a|..|a| + |b|] == b;
    SliceWithin(ts, p, a + b + c, |a|, b);
    assert (a + b + c)[|a| + |b|..|a| + |b| + |c|] == c;
    SliceWithin(ts, p, a + b + c, |a| + |b|, c);
  }

  /** The tokens of one or more elements start with the first literal. */
  lemma FirstElementLayout(ls: seq<Literal>, ts: seq<Token>, p: nat)
    requires |ls| >= 1
    requires p + |ElementTokens(ls)| <= |ts| && ts[p..p + |ElementTokens(ls)|] == ElementTokens(ls)
    ensures var lt := LiteralTokens(ls[0]);
      p + |lt| <= |ts| && ts[p..p + |lt|] == lt && ts[p] != RBrack
    ensures |ls| == 1 ==> ElementTokens(ls) == LiteralTokens(ls[0])
  {
    var lt := LiteralTokens(ls[0]);
    if |ls| == 1 {
      assert ElementTokens(ls) == lt;
    } else {
      var rest := ElementTokens(ls[1..]);
      assert ElementTokens(ls) == lt + [Comma] + rest;
      SplitThree(ts, p, lt, [Comma], rest);
    }
    LiteralStart(ls[0]);
    SliceFirst(ts, p, |lt|);
  }

  /** The tokens of two or more elements: the first literal, `,`, the rest. */
  lemma ElementsLayout(ls: seq<Literal>, ts: seq<Token>, p: nat)
    requires |ls| >= 2
    requires p + |ElementTokens(ls)| <= |ts| && ts[p..p + |ElementTokens(ls)|] == ElementTokens(ls)
    ensures var q := p + |LiteralTokens(ls[0])|; var rest := ElementTokens(ls[1..]);
      q < |ts| && ts[q] == Comma &&
      q + 1 + |rest| == p + |ElementTokens(ls)| && ts[q + 1..q + 1 + |rest|] == rest
  {
    var lt := LiteralTokens(ls[0]);
    var rest := ElementTokens(ls[1..]);
    assert ElementTokens(ls) == lt + [Comma] + rest;
    SplitThree(ts, p, lt, [Comma], rest);
    SliceFirst(ts, p + |lt|, 1);
  }

  /** The step of ElementsRoundTrip past the first element and its `,`. */
  lemma {:induction false} ElementsStep(ls: seq<Literal>, ts: seq<Token>, p: nat, env: Env, acc: seq<Value>)
    requires |ls| >= 2
    requires p + |ElementTokens(ls)| < |ts| && ts[p + |ElementTokens(ls)|] == RBrack
    requires p < |ts| && ts[p] != RBrack
    requires ValueAt(ts, p, env) == Ok(Parsed(LiteralValue(ls[0]), p + |LiteralTokens(ls[0])|))
    requires var q := p + |LiteralTokens(ls[0])|; var rest := ElementTokens(ls[1..]);
      q < |ts| && ts[q] == Comma &&
      q + 1 + |rest| == p + |ElementTokens(ls)| && ts[q + 1..q + 1 + |rest|] == rest
    ensures ElementsAt(ts, p, env, acc) == Ok(Parsed(Array(acc + LiteralValues(ls)), p + |ElementTokens(ls)| + 1))
    decreases ls, 0
  {
    var x, q := LiteralValue(ls[0]), p + |LiteralTokens(ls[0])|;
    ElementsRoundTrip(ls[1..], ts, q + 1, env, acc + [x]);
    ElementsComma(ts, p, env, acc, x, q);
    ConsValues(ls, acc);
  }

  /** acc followed by the values of ls, first value apart. */
  lemma ConsValues(ls: seq<Literal>, acc: seq<Value>)
    requires ls != []
    ensures acc + [LiteralValue(ls[0])] + LiteralValues(ls[1..]) == acc + LiteralValues(ls)
  {
    var x, ys := LiteralValue(ls[0]), LiteralValues(ls[1..]);
    assert LiteralValues(ls) == [x] + ys;
    assert acc + [x] + ys == acc + ([x] + ys);
  }

  /** The last element, followed by `]`. */
  lemma ElementsLast(x: Value, ts: seq<Token>, p: nat, q: nat, env: Env, acc: seq<Value>)
    requires p < |ts| && ts[p] != RBrack && ValueAt(ts, p, env) == Ok(Parsed(x, q))
    requires q < |ts| && ts[q] == RBrack
    ensures ElementsAt(ts, p, env, acc) == Ok(Parsed(Array(acc + [x]), q + 1))
  {
  }

  /** A value that fails to parse fails the array. */
  lemma ElementsValueFails(ts: seq<Token>, p: nat, env: Env, acc: seq<Value>)
    requires p < |ts| && ts[p] != RBrack && ValueAt(ts, p, env).Err?
    ensures ElementsAt(ts, p, env, acc) == Err(ValueAt(ts, p, env).error)
  {
  }

  /** A value that runs to the last token leaves nothing to close the array. */
  lemma ElementsPastEnd(ts: seq<Token>, p: nat, env: Env, acc: seq<Value>, v: Value, q: nat)
    requires p < |ts| && ts[p] != RBrack && ValueAt(ts, p, env) == Ok(Parsed(v, q))
    requires q >= |ts|
    ensures ElementsAt(ts, p, env, acc) == Err(IndexError)
  {
  }

  /** An element followed by anything but `,`: the loop stops and the `]`
      is expected there. */
  lemma ElementsClose(ts: seq<Token>, p: nat, env: Env, acc: seq<Value>, v: Value, q: nat)
    requires p < |ts| && ts[p] != RBrack && ValueAt(ts, p, env) == Ok(Parsed(v, q))
    requires q < |ts| && ts[q] != Comma
    ensures ElementsAt(ts, p, env, acc) == CloseAt(ts, q, acc + [v])
  {
  }

  /** An element followed by `,`: the loop goes on after the `,`. */
  lemma ElementsComma(ts: seq<Token>, p: nat, env: Env, acc: seq<Value>, v: Value, q: nat)
    requires p < |ts| && ts[p] != RBrack && ValueAt(ts, p, env) == Ok(Parsed(v, q))
    requires q < |ts| && ts[q] == Comma
    ensures ElementsAt(ts, p, env, acc) == ElementsAt(ts, q + 1, env, acc + [v])
  {
  }

  /** `[]` is the empty array. */
  lemma EmptyArray(env: Env)
    ensures ValueAt([LBrack, RBrack], 0, env) == Ok(Parsed(Array([]), 2))
  {
    LiteralRoundTrip(List([]), [LBrack, RBrack], 0, env);
  }

  /** A `,` right before `]` is accepted: `[1, 2,]` is `[1, 2]`. */
  lemma TrailingCommaAccepted(env: Env)
    ensures ValueAt([LBrack, Number(1), Comma, Number(2), Comma, RBrack], 0, env)
      == Ok(Parsed(Array([Int(1), Int(2)]), 6))
  {
    var ts := [LBrack, Number(1), Comma, Number(2), Comma, RBrack];
    assert ValueAt(ts, 1, env) == Ok(Parsed(Int(1), 2));
    assert ValueAt(ts, 3, env) == Ok(Parsed(Int(2), 4));
    assert ElementsAt(ts, 5, env, [Int(1), Int(2)]) == Ok(Parsed(Array([Int(1), Int(2)]), 6));
    assert [Int(1)] + [Int(2)] == [Int(1), Int(2)];
    assert ElementsAt(ts, 3, env, [Int(1)]) == Ok(Parsed(Array([Int(1), Int(2)]), 6));
    assert [] + [Int(1)] == [Int(1)];
    assert ElementsAt(ts, 1, env, []) == Ok(Parsed(Array([Int(1), Int(2)]), 6));
  }

  /** Two elements without a `,` between them fail where `]` is expected. */
  lemma MissingCommaFails(env: Env, m: nat, n: nat, more: seq<Token>)
    ensures ValueAt([LBrack, Number(m), Number(n)] + more, 0, env) == Err(SyntaxError)
  {
    var ts := [LBrack, Number(m), Number(n)] + more;
    assert ts[0] == LBrack && ts[1] == Number(m) && ts[2] == Number(n);
    assert ValueAt(ts, 1, env) == Ok(Parsed(Int(m), 2));
    assert ElementsAt(ts, 1, env, []) == Err(SyntaxError);
  }

  /** A bracketed postfix expression is a value: the one the expression tree denotes. */
  lemma ExpressionValue(e: Expr, ts: seq<Token>, pos: nat, env: Env)
    requires pos + |Postfix(e)| + 1 < |ts| && ts[pos] == LBrace
    requires ts[pos + 1..pos + 1 + |Postfix(e)|] == Postfix(e) && ts[pos + 1 + |Postfix(e)|] == RBrace
    ensures ValueAt(ts, pos, env) ==
      match Denote(e, env)
      case Err(x) => Err(x)
      case Ok(v) => Ok(Parsed(v, pos + |Postfix(e)| + 2))
  {
    EvalPostfix(e, ts, pos + 1, env);
  }

  // ---------------------------------------------------------------------------
  // Whole conversions

  /** Text holding only whitespace converts to no records. */
  lemma BlankTextGivesNothing(text: string)
    requires forall j :: 0 <= j < |text| ==> ConfigLexer.IsSpace(text[j])
    ensures Convert(text) == Ok([])
  {
    assert ')' !in text && '#' !in text by {
      forall j | 0 <= j < |text| ensures text[j] != ')' && text[j] != '#' {
        assert ConfigLexer.IsSpace(text[j]);
      }
    }
    ConfigComments.UnclosedBlockCommentSurvives(text);
    ConfigComments.StripLineCommentsIdentity(text);
    ConfigLexer.WhitespaceIsDropped(text, []);
    assert text + [] == text;
  }

  /** The nested-comment example (config_to_json/tests.py:192-201), for any
      indentation and any text after the last `#`: the comment opened on the
      first line ends at the `)` of the inner one, taking the `#` line and
      `var y` with it; `var z` survives with its `#` comment cut off. */
  lemma NestedCommentsConvert(indent: string, note: string)
    requires forall j :: 0 <= j < |indent| ==> indent[j] == ' '
    requires '\n' !in note && ')' !in note
    ensures Convert(NestedCommentsText(indent, note)) == Ok([Statement("z", Int(30))])
  {
    var ts := [Var, Name("z"), Assign, Number(30)];
    NestedCommentsRemoved(indent, note);
    NestedCommentsLexed(indent);
    assert ConfigLexer.Tokenize(NestedCommentsText(indent, note)) == Ok(ts);
    assert StatementAt(ts, 0, map[]) == Ok(Parsed(Statement("z", Int(30)), 4)) by {
      assert ValueAt(ts, 3, map[]) == Ok(Parsed(Int(30), 4));
    }
    StatementsStep(ts, 0, map[], []);
    assert [] + [Statement("z", Int(30))] == [Statement("z", Int(30))];
    assert StatementsAt(ts, 4, map["z" := Int(30)], [Statement("z", Int(30))]).Ok?;
  }

  /** The example exactly as written in the test: four-space indentation. */
  lemma NestedCommentsTest()
    ensures Convert(NestedCommentsText("    ", " Это значение должно быть обработано")) == Ok([Statement("z", Int(30))])
  {
    NestedCommentsConvert("    ", " Это значение должно быть обработано");
  }

  /** The input of the nested-comment example, with its indentation and last
      comment as parameters: a line break, the outer opener, a body holding
      the `#` line and the inner comment up to its `)`, then the `var z` line
      with its `#` comment. */
  function NestedCommentsText(indent: string, note: string): string
  {
    var body := "\n" + indent + "# var x := 10\n" + indent + "(comment var y := 20 ";
    ("\n" + indent) + ConfigComments.BlockOpen + body + ")" + (LastLine(indent) + "#" + note + "\n" + indent)
  }

  /** The `var z` line up to its `#`. */
  function LastLine(indent: string): string
  {
    "\n" + indent + "var z := 30 "
  }

  /** What is left of it once comments are removed. */
  function NestedCommentsKept(indent: string): string
  {
    ("\n" + indent) + (LastLine(indent) + "\n" + indent)
  }

  lemma NestedCommentsRemoved(indent: string, note: string)
    requires forall j :: 0 <= j < |indent| ==> indent[j] == ' '
    requires '\n' !in note && ')' !in note
    ensures ConfigComments.RemoveComments(NestedCommentsText(indent, note)) == NestedCommentsKept(indent)
  {
    var a := "\n" + indent;
    var body := "\n" + indent + "# var x := 10\n" + indent + "(comment var y := 20 ";
    var rest := LastLine(indent) + "#" + note + "\n" + indent;
    assert ')' !in body && ')' !in rest && '(' !in a && '#' !in a && '#' !in LastLine(indent) && '#' !in indent by {
      assert forall j :: 0 <= j < |indent| ==> indent[j] != ')' && indent[j] != '(' && indent[j] != '#';
    }
    ConfigComments.BlockCommentRemoved(a, body, rest);
    ConfigComments.UnclosedBlockCommentSurvives(rest);
    ConfigComments.LinePassKeepsPlainPrefix(a, rest);
    ConfigComments.LineCommentRemoved(LastLine(indent), note, indent);
    ConfigComments.StripLineCommentsIdentity(indent);
  }

  lemma NestedCommentsLexed(indent: string)
    requires forall j :: 0 <= j < |indent| ==> indent[j] == ' '
    ensures ConfigLexer.Lex(NestedCommentsKept(indent)) == ConfigLexer.Lexed([Var, Name("z"), Assign, Number(30)], None)
  {
    var ts := [Var, Name("z"), Assign, Number(30)];
    assert ConfigLexer.Render(ts) == "var z := 30 " by {
      assert ConfigLexer.Decimal(30) == "30";
    }
    var lead := "\n" + indent + "\n" + indent;
    var trail := "\n" + indent;
    assert forall j :: 0 <= j < |lead| ==> ConfigLexer.IsSpace(lead[j]);
    assert forall j :: 0 <= j < |trail| ==> ConfigLexer.IsSpace(trail[j]);
    assert NestedCommentsKept(indent) == lead + (ConfigLexer.Render(ts) + trail);
    ConfigLexer.WhitespaceIsDropped(lead, ConfigLexer.Render(ts) + trail);
    ConfigLexer.LexRenderThen(ts, trail);
    ConfigLexer.WhitespaceIsDropped(trail, []);
    assert trail + [] == trail;
    assert ts + [] == ts;
  }
}

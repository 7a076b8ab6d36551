/** The postfix stack machine that evaluates a bracketed expression
    (ConfigParser.parse_expression, config_to_json/config_to_json.py:103-150),
    and an expression-tree semantics it is proved against. */
module ConfigEval {
  import opened ConfigSyntax
  import opened ConfigValues

  /** How many values a token pops off the stack before pushing its one result. */
  function Arity(t: Token): nat
  {
    match t
    case Op(_) => 2
    case Index => 2
    case Sort => 1
    case _ => 0
  }

  /** The tokens that may appear between `{` and `}`. */
  predicate IsExprToken(t: Token)
  {
    t.Number? || t.Name? || t.Op? || t.Sort? || t.Index?
  }

  /** One token applied to the stack (its top is the last element).
      NUMBER and NAME push; `+ - *` pop b then a and push `a op b`; `sort()` pops
      a list and pushes it sorted; `index()` pops the index, then the list, and
      pushes the element. Popping an empty stack is an IndexError; an undeclared
      name a NameError; any other token a SyntaxError. */
  function Step(t: Token, env: Env, stack: seq<Value>): (r: Result<seq<Value>>)
  {
    match t
    case Number(n) => Ok(stack + [Int(n)])
    case Name(x) => if x in env then Ok(stack + [env[x]]) else Err(NameError(x))
    case Op(op) =>
      if |stack| < 2 then Err(IndexError)
      else
        var v :- Apply(op, stack[|stack| - 2], stack[|stack| - 1]);
        Ok(stack[..|stack| - 2] + [v])
    case Sort =>
      if |stack| < 1 then Err(IndexError)
      else
        var v :- SortValue(stack[|stack| - 1]);
        Ok(stack[..|stack| - 1] + [v])
    case Index =>
      if |stack| < 2 then Err(IndexError)
      else
        var v :- IndexValue(stack[|stack| - 2], stack[|stack| - 1]);
        Ok(stack[..|stack| - 2] + [v])
    case _ => Err(SyntaxError)
  }

  /** What one token does to the stack: a token that cannot appear in an
      expression is a SyntaxError, too few operands an IndexError, and on
      success the operands are replaced by one result, the values below them
      untouched. */
  lemma StepShape(t: Token, env: Env, stack: seq<Value>)
    ensures var r := Step(t, env, stack);
      && (!IsExprToken(t) ==> r == Err(SyntaxError))
      && (IsExprToken(t) && |stack| < Arity(t) ==> r == Err(IndexError))
      && (r.Ok? ==> |stack| >= Arity(t) && |r.value| == |stack| - Arity(t) + 1)
      && (r.Ok? ==> r.value[..|stack| - Arity(t)] == stack[..|stack| - Arity(t)])
  {
  }

  /** The evaluation loop from token `pos` up to and including the first `}`.
      Running out of tokens before a `}` is an IndexError; at the `}` the stack
      must hold exactly one value, which is the result. */
  function EvalFrom(ts: seq<Token>, pos: nat, env: Env, stack: seq<Value>): (r: Result<Parsed<Value>>)
    ensures r.Ok? ==> pos < r.value.next <= |ts| && ts[r.value.next - 1] == RBrace
    decreases |ts| - pos
  {
    if pos >= |ts| then Err(IndexError)
    else if ts[pos] == RBrace then
      if |stack| != 1 then Err(SyntaxError) else Ok(Parsed(stack[0], pos + 1))
    else
      var next :- Step(ts[pos], env, stack);
      EvalFrom(ts, pos + 1, env, next)
  }

  /** One step of the evaluation loop at a token other than `}`. */
  lemma EvalFromStep(ts: seq<Token>, pos: nat, env: Env, stack: seq<Value>)
    requires pos < |ts| && ts[pos] != RBrace
    ensures EvalFrom(ts, pos, env, stack) ==
      match Step(ts[pos], env, stack)
      case Err(e) => Err(e)
      case Ok(next) => EvalFrom(ts, pos + 1, env, next)
  {
  }

  /** The machine run over a whole token sequence with no `}` handling. */
  function Exec(code: seq<Token>, env: Env, stack: seq<Value>): Result<seq<Value>>
  {
    if code == [] then Ok(stack)
    else
      var next :- Step(code[0], env, stack);
      Exec(code[1..], env, next)
  }

  /** Running two pieces of code one after the other is running their concatenation. */
  lemma {:induction false} ExecAppend(a: seq<Token>, b: seq<Token>, env: Env, stack: seq<Value>)
    ensures Exec(a + b, env, stack) ==
      match Exec(a, env, stack)
      case Err(e) => Err(e)
      case Ok(mid) => Exec(b, env, mid)
  {
    if a == [] {
      assert a + b == b;
    } else {
      assert (a + b)[0] == a[0] && (a + b)[1..] == a[1..] + b;
      match Step(a[0], env, stack)
      case Err(_) =>
      case Ok(next) => ExecAppend(a[1..], b, env, next);
    }
  }

  /** The evaluation loop runs a `}`-free stretch of tokens exactly as Exec does. */
  lemma {:induction false} EvalFromExec(ts: seq<Token>, pos: nat, code: seq<Token>, env: Env, stack: seq<Value>)
    requires pos + |code| <= |ts| && ts[pos..pos + |code|] == code
    requires RBrace !in code
    ensures Exec(code, env, stack).Err? ==> EvalFrom(ts, pos, env, stack) == Err(Exec(code, env, stack).error)
    ensures Exec(code, env, stack).Ok? ==>
      EvalFrom(ts, pos, env, stack) == EvalFrom(ts, pos + |code|, env, Exec(code, env, stack).value)
    decreases |code|
  {
    if code != [] {
      ExecFirstStep(ts, pos, code, env, stack);
      match Step(code[0], env, stack) {
        case Err(_) =>
        case Ok(next) => EvalFromExec(ts, pos + 1, code[1..], env, next);
      }
    }
  }

  /** The first token of a `}`-free stretch, taken by both loops. */
  lemma ExecFirstStep(ts: seq<Token>, pos: nat, code: seq<Token>, env: Env, stack: seq<Value>)
    requires pos + |code| <= |ts| && ts[pos..pos + |code|] == code
    requires code != [] && RBrace !in code
    ensures RBrace !in code[1..]
    ensures var r := Step(code[0], env, stack);
      && (r.Err? ==> EvalFrom(ts, pos, env, stack) == Err(r.error) && Exec(code, env, stack) == Err(r.error))
      && (r.Ok? ==> EvalFrom(ts, pos, env, stack) == EvalFrom(ts, pos + 1, env, r.value)
                    && Exec(code, env, stack) == Exec(code[1..], env, r.value))
      && ts[pos + 1..pos + 1 + |code[1..]|] == code[1..]
  {
    assert code[0] in code && ts[pos] == code[0];
    assert forall t :: t in code[1..] ==> t in code;
    EvalFromStep(ts, pos, env, stack);
  }

  // ---------------------------------------------------------------------------
  // An expression-tree semantics for the postfix code

  /** Expressions as trees; the source has only their postfix token form. */
  datatype Expr =
    | Lit(n: nat)
    | Ref(name: string)
    | Bin(op: BinOp, lhs: Expr, rhs: Expr)
    | SortOf(arg: Expr)
    | IndexOf(arr: Expr, idx: Expr)

  /** Evaluation of a tree, operands left to right, the first error winning. */
  function Denote(e: Expr, env: Env): Result<Value>
  {
    match e
    case Lit(n) => Ok(Int(n))
    case Ref(x) => if x in env then Ok(env[x]) else Err(NameError(x))
    case Bin(op, l, r) =>
      var a :- Denote(l, env);
      var b :- Denote(r, env);
      Apply(op, a, b)
    case SortOf(a) =>
      var v :- Denote(a, env);
      SortValue(v)
    case IndexOf(a, i) =>
      var xs :- Denote(a, env);
      var k :- Denote(i, env);
      IndexValue(xs, k)
  }

  /** The postfix token form of a tree, as written between `{` and `}`. */
  function Postfix(e: Expr): (code: seq<Token>)
    ensures RBrace !in code
  {
    match e
    case Lit(n) => [Number(n)]
    case Ref(x) => [Name(x)]
    case Bin(op, l, r) => Postfix(l) + Postfix(r) + [Op(op)]
    case SortOf(a) => Postfix(a) + [Sort]
    case IndexOf(a, i) => Postfix(a) + Postfix(i) + [Index]
  }

  /** The stack machine computes the tree semantics: running the postfix form of
      e pushes exactly e's value, or fails with e's error. */
  lemma {:induction false} ExecPostfix(e: Expr, more: seq<Token>, env: Env, stack: seq<Value>)
    ensures Exec(Postfix(e) + more, env, stack) ==
      match Denote(e, env)
      case Err(x) => Err(x)
      case Ok(v) => Exec(more, env, stack + [v])
    decreases e, 1
  {
    match e
    case Lit(n) =>
    case Ref(x) =>
    case Bin(op, l, r) =>
      ExecPostfixBinary(op, l, r, more, env, stack);
    case SortOf(a) =>
      assert Postfix(e) + more == Postfix(a) + ([Sort] + more);
      ExecPostfix(a, [Sort] + more, env, stack);
      if Denote(a, env).Ok? {
        ExecSort(more, env, stack, Denote(a, env).value);
      }
    case IndexOf(a, i) =>
      ExecPostfixIndex(a, i, more, env, stack);
  }

  /** ExecPostfix for `l op r`: l, then r, then the operator. */
  lemma {:induction false} ExecPostfixBinary(op: BinOp, l: Expr, r: Expr, more: seq<Token>, env: Env, stack: seq<Value>)
    ensures Exec(Postfix(Bin(op, l, r)) + more, env, stack) ==
      match Denote(Bin(op, l, r), env)
      case Err(x) => Err(x)
      case Ok(v) => Exec(more, env, stack + [v])
    decreases Bin(op, l, r), 0
  {
    PostfixLayout(Postfix(l), Postfix(r), Op(op), more);
    ExecPostfix(l, Postfix(r) + ([Op(op)] + more), env, stack);
    match Denote(l, env) {
      case Err(_) =>
      case Ok(a) =>
        ExecPostfix(r, [Op(op)] + more, env, stack + [a]);
        match Denote(r, env) {
          case Err(_) =>
          case Ok(b) => ExecBinary(op, more, env, stack, a, b);
        }
    }
  }

  /** ExecPostfix for `a[i]`: a, then i, then the indexing. */
  lemma {:induction false} ExecPostfixIndex(a: Expr, i: Expr, more: seq<Token>, env: Env, stack: seq<Value>)
    ensures Exec(Postfix(IndexOf(a, i)) + more, env, stack) ==
      match Denote(IndexOf(a, i), env)
      case Err(x) => Err(x)
      case Ok(v) => Exec(more, env, stack + [v])
    decreases IndexOf(a, i), 0
  {
    PostfixLayout(Postfix(a), Postfix(i), Index, more);
    ExecPostfix(a, Postfix(i) + ([Index] + more), env, stack);
    match Denote(a, env) {
      case Err(_) =>
      case Ok(xs) =>
        ExecPostfix(i, [Index] + more, env, stack + [xs]);
        match Denote(i, env) {
          case Err(_) =>
          case Ok(k) => ExecIndex(more, env, stack, xs, k);
        }
    }
  }

  /** Two operands' code and their operator, followed by more code. */
  lemma PostfixLayout(x: seq<Token>, y: seq<Token>, t: Token, more: seq<Token>)
    ensures x + y + [t] + more == x + (y + ([t] + more))
  {
  }

  /** An operator token applied to the two operands just pushed: both are
      popped and `a op b` takes their place. */
  lemma ExecBinary(op: BinOp, more: seq<Token>, env: Env, stack: seq<Value>, a: Value, b: Value)
    ensures Apply(op, a, b).Err? ==> Exec([Op(op)] + more, env, stack + [a] + [b]) == Err(Apply(op, a, b).error)
    ensures Apply(op, a, b).Ok? ==> Exec([Op(op)] + more, env, stack + [a] + [b]) == Exec(more, env, stack + [Apply(op, a, b).value])
  {
    var st := stack + [a] + [b];
    assert ([Op(op)] + more)[0] == Op(op) && ([Op(op)] + more)[1..] == more;
    assert st[..|st| - 2] == stack && st[|st| - 2] == a && st[|st| - 1] == b;
  }

  /** `sort()` applied to the list just pushed. */
  lemma ExecSort(more: seq<Token>, env: Env, stack: seq<Value>, a: Value)
    ensures SortValue(a).Err? ==> Exec([Sort] + more, env, stack + [a]) == Err(SortValue(a).error)
    ensures SortValue(a).Ok? ==> Exec([Sort] + more, env, stack + [a]) == Exec(more, env, stack + [SortValue(a).value])
  {
    var st := stack + [a];
    assert ([Sort] + more)[0] == Sort && ([Sort] + more)[1..] == more;
    assert st[..|st| - 1] == stack && st[|st| - 1] == a;
  }

  /** `index()` applied to the list and the index just pushed. */
  lemma ExecIndex(more: seq<Token>, env: Env, stack: seq<Value>, xs: Value, k: Value)
    ensures IndexValue(xs, k).Err? ==> Exec([Index] + more, env, stack + [xs] + [k]) == Err(IndexValue(xs, k).error)
    ensures IndexValue(xs, k).Ok? ==> Exec([Index] + more, env, stack + [xs] + [k]) == Exec(more, env, stack + [IndexValue(xs, k).value])
  {
    var st := stack + [xs] + [k];
    assert ([Index] + more)[0] == Index && ([Index] + more)[1..] == more;
    assert st[..|st| - 2] == stack && st[|st| - 2] == xs && st[|st| - 1] == k;
  }

  /** A whole bracketed expression evaluates to the tree's value: the postfix
      code followed by `}` leaves exactly one value, the tree's. */
  lemma EvalPostfix(e: Expr, ts: seq<Token>, pos: nat, env: Env)
    requires pos + |Postfix(e)| < |ts| && ts[pos..pos + |Postfix(e)|] == Postfix(e)
    requires ts[pos + |Postfix(e)|] == RBrace
    ensures EvalFrom(ts, pos, env, []) ==
      match Denote(e, env)
      case Err(x) => Err(x)
      case Ok(v) => Ok(Parsed(v, pos + |Postfix(e)| + 1))
  {
    match Denote(e, env)
    case Err(x) => EvalPostfixFails(e, ts, pos, env, x);
    case Ok(v) => EvalPostfixValue(e, ts, pos, env, v);
  }

  /** The bracketed expression of a tree that denotes v yields v, the cursor just past `}`. */
  lemma EvalPostfixValue(e: Expr, ts: seq<Token>, pos: nat, env: Env, v: Value)
    requires pos + |Postfix(e)| < |ts| && ts[pos..pos + |Postfix(e)|] == Postfix(e)
    requires ts[pos + |Postfix(e)|] == RBrace
    requires Denote(e, env) == Ok(v)
    ensures EvalFrom(ts, pos, env, []) == Ok(Parsed(v, pos + |Postfix(e)| + 1))
  {
    var code := Postfix(e);
    var none: seq<Value> := [];
    var close := pos + |code|;
    EvalFromClose(ts, close, env, v);
    assert Exec(code, env, none) == Ok([v]) by {
      ExecPostfix(e, [], env, none);
      assert code + [] == code;
      assert none + [v] == [v];
    }
    EvalFromExec(ts, pos, code, env, none);
  }

  /** The bracketed expression of a tree whose evaluation fails fails with the same error. */
  lemma EvalPostfixFails(e: Expr, ts: seq<Token>, pos: nat, env: Env, x: Error)
    requires pos + |Postfix(e)| < |ts| && ts[pos..pos + |Postfix(e)|] == Postfix(e)
    requires Denote(e, env) == Err(x)
    ensures EvalFrom(ts, pos, env, []) == Err(x)
  {
    var code := Postfix(e);
    var none: seq<Value> := [];
    assert Exec(code, env, none) == Err(x) by {
      ExecPostfix(e, [], env, none);
      assert code + [] == code;
    }
    EvalFromExec(ts, pos, code, env, none);
  }

  /** At the `}` a stack of one value is the result. */
  lemma EvalFromClose(ts: seq<Token>, p: nat, env: Env, v: Value)
    requires p < |ts| && ts[p] == RBrace
    ensures EvalFrom(ts, p, env, [v]) == Ok(Parsed(v, p + 1))
  {
  }

  // ---------------------------------------------------------------------------
  // Properties the source's own examples pin down

  /** With a = 5 and b = 3: `a b +` is 8, `a b -` is 2, `a b *` is 15. */
  lemma ArithmeticExamples(env: Env)
    requires "a" in env && "b" in env && env["a"] == Int(5) && env["b"] == Int(3)
    ensures Exec([Name("a"), Name("b"), Op(Add)], env, []) == Ok([Int(8)])
    ensures Exec([Name("a"), Name("b"), Op(Sub)], env, []) == Ok([Int(2)])
    ensures Exec([Name("a"), Name("b"), Op(Mul)], env, []) == Ok([Int(15)])
  {
    BinaryExample(Add, env, "a", "b");
    BinaryExample(Sub, env, "a", "b");
    BinaryExample(Mul, env, "a", "b");
  }

  /** `x y op` on two bound integers leaves `x op y`. */
  lemma BinaryExample(op: BinOp, env: Env, x: string, y: string)
    requires x in env && y in env && env[x].Int? && env[y].Int?
    ensures Exec([Name(x), Name(y), Op(op)], env, []) ==
      Ok([Int(match op case Add => env[x].i + env[y].i case Sub => env[x].i - env[y].i case Mul => env[x].i * env[y].i)])
  {
    var e := Bin(op, Ref(x), Ref(y));
    ExecPostfix(e, [], env, []);
    assert Postfix(e) + [] == [Name(x), Name(y), Op(op)];
    var none: seq<Value> := [];
    assert none + [Denote(e, env).value] == [Denote(e, env).value];
  }

  /** With x = 2 and y = 3, `x y + x y + *` is 25. */
  lemma NestedArithmeticExample(env: Env)
    requires "x" in env && "y" in env && env["x"] == Int(2) && env["y"] == Int(3)
    ensures Exec([Name("x"), Name("y"), Op(Add), Name("x"), Name("y"), Op(Add), Op(Mul)], env, []) == Ok([Int(25)])
  {
    var s := Bin(Add, Ref("x"), Ref("y"));
    var e := Bin(Mul, s, s);
    assert Denote(s, env) == Ok(Int(5));
    assert Denote(e, env) == Ok(Int(25));
    assert Postfix(e) + [] == [Name("x"), Name("y"), Op(Add), Name("x"), Name("y"), Op(Add), Op(Mul)];
    ExecPostfix(e, [], env, []);
    var none: seq<Value> := [];
    assert none + [Int(25)] == [Int(25)];
  }

  /** A name with no binding fails with NameError, whatever the stack. */
  lemma UndefinedNameFails(x: string, env: Env, stack: seq<Value>, more: seq<Token>)
    requires x !in env
    ensures Exec([Name(x)] + more, env, stack) == Err(NameError(x))
  {
    assert ([Name(x)] + more)[0] == Name(x);
  }

  /** An operator with fewer than two operands on the stack fails
      (Python's pop from an empty list). */
  lemma MissingOperandFails(op: BinOp, env: Env, stack: seq<Value>, more: seq<Token>)
    requires |stack| < 2
    ensures Exec([Op(op)] + more, env, stack) == Err(IndexError)
  {
    assert ([Op(op)] + more)[0] == Op(op);
  }

  /** At `}` a stack that does not hold exactly one value is a SyntaxError. */
  lemma CloseNeedsOneValue(ts: seq<Token>, pos: nat, env: Env, stack: seq<Value>)
    requires pos < |ts| && ts[pos] == RBrace && |stack| != 1
    ensures EvalFrom(ts, pos, env, stack) == Err(SyntaxError)
  {
  }
}

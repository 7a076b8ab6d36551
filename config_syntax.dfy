/** Values, tokens and error kinds of the configuration language
    (config_to_json/config_to_json.py). */
module ConfigSyntax {

  /** A configuration value: a Python int (unbounded) or a Python list of values. */
  datatype Value = Int(i: int) | Array(elems: seq<Value>)

  /** The three arithmetic operators the OP token class accepts. */
  datatype BinOp = Add | Sub | Mul

  /** One token; the payload of NUMBER is the decoded integer, that of NAME the identifier. */
  datatype Token =
    | Number(n: nat)
    | Var
    | Sort
    | Index
    | Name(id: string)
    | Assign
    | LBrace
    | RBrace
    | LBrack
    | RBrack
    | Comma
    | Op(op: BinOp)

  /** The token type names the parser asks `expect` for. */
  datatype Kind = NUMBER | VAR | SORT | INDEX | NAME | ASSIGN | LBRACE | RBRACE | LBRACK | RBRACK | COMMA | OP

  function KindOf(t: Token): Kind
  {
    match t
    case Number(_) => NUMBER
    case Var => VAR
    case Sort => SORT
    case Index => INDEX
    case Name(_) => NAME
    case Assign => ASSIGN
    case LBrace => LBRACE
    case RBrace => RBRACE
    case LBrack => LBRACK
    case RBrack => RBRACK
    case Comma => COMMA
    case Op(_) => OP
  }

  /** The exceptions the parser raises, one constructor per kind.
      UnexpectedCharacter is the SyntaxError raised by the tokenizer;
      IndexError covers every Python IndexError: reading past the last token,
      popping an empty stack and an index outside the array. */
  datatype Error =
    | UnexpectedCharacter(c: char)
    | SyntaxError
    | NameError(name: string)
    | TypeError
    | IndexError

  datatype Result<T> = Ok(value: T) | Err(error: Error) {
    predicate IsFailure() { Err? }

    function PropagateFailure<U>(): Result<U>
      requires Err?
    {
      Err(error)
    }

    function Extract(): T
      requires Ok?
    {
      value
    }
  }

  datatype Option<T> = None | Some(value: T)

  /** The variable map: the current binding of each declared name. */
  type Env = map<string, Value>

  /** One output record `{'var': name, 'value': value}`. */
  datatype Statement = Statement(name: string, value: Value)

  /** A successful parse of a prefix of the tokens: what was parsed and the cursor after it. */
  datatype Parsed<T> = Parsed(result: T, next: nat)
}
